/**
 * The thinning page's `processedGeoJsonData`: every LineString feature of the
 * loaded collection is passed through the thinning policy the controls
 * selected. Only the feature's coordinates and its `timeStamps` property are
 * replaced; every other field of the feature, of its geometry, of its
 * properties and of the collection is carried over unchanged. Those other
 * fields are type parameters here, so the model cannot touch them.
 */
module ThinningPage {
  import opened Wrappers
  import opened Geo
  import opened TrackThinning
  import opened ThinningControls

  /**
   * A LineString feature: its coordinates, its optional `timeStamps` property,
   * and everything else in the geometry (`G`) and in the properties (`P`).
   */
  datatype LineFeature<G, P> = LineFeature(
    geometryRest: G,
    coordinates: seq<Coord>,
    propertiesRest: P,
    timeStamps: Option<seq<Stamp>>)

  /** A FeatureCollection of LineString features; `rest` is every other field. */
  datatype LineCollection<C, G, P> = LineCollection(rest: C, features: seq<LineFeature<G, P>>)

  /** `feature.properties.timeStamps || []`: an absent array reads as empty. */
  function StampsOf<G, P>(f: LineFeature<G, P>): seq<Stamp> {
    if f.timeStamps.Some? then f.timeStamps.value else []
  }

  /**
   * The `thinBySequence` loop advances by `value`, so it only terminates and
   * only reads real indices for a whole stride of at least one. Every option
   * the controls emit has this shape (`ThinningControls.ValidOptions`).
   */
  predicate StrideIsWhole(o: ThinningOptions) {
    o.kind == Sequence && o.value.Some? ==> o.value.value == o.value.value.Floor as real && o.value.value >= 1.0
  }

  /**
   * The policy the page applies: none when the type is 'none' or the value is
   * null; otherwise 'sequence', 'time' and 'distance' select `thinBySequence`,
   * `thinByTime` and `thinByDistance` with the value as their parameter.
   */
  function PolicyOf(o: ThinningOptions): (p: Option<Policy>)
    requires StrideIsWhole(o)
    ensures p.None? <==> o.kind == NoThinning || o.value.None?
    ensures p.Some? ==> ValidPolicy(p.value)
    ensures p.Some? && o.kind == Sequence ==> p.value.Stride? && p.value.interval as real == o.value.value
    ensures p.Some? && o.kind == Time ==> p.value == TimeGap(o.value.value)
    ensures p.Some? && o.kind == Distance ==> p.value == DistanceGap(o.value.value)
  {
    if o.kind == NoThinning || o.value.None? then None
    else
      match o.kind
      case Sequence => Some(Stride(o.value.value.Floor))
      case Time => Some(TimeGap(o.value.value))
      case Distance => Some(DistanceGap(o.value.value))
  }

  /** The options the controls emit always have a whole stride. */
  lemma ValidOptionsHaveWholeStride(o: ThinningOptions)
    requires ValidOptions(o)
    ensures StrideIsWhole(o)
    ensures o.kind == Sequence && o.value.Some? ==> PolicyOf(o) == Some(Stride(o.value.value.Floor))
  {
  }

  /** The body of the `features.map` callback. */
  function ProcessFeature<G, P>(o: ThinningOptions, f: LineFeature<G, P>, parse: string -> Option<int>, dist: (Coord, Coord) -> real): (g: LineFeature<G, P>)
    requires StrideIsWhole(o)
    ensures g.geometryRest == f.geometryRest && g.propertiesRest == f.propertiesRest
    ensures g.timeStamps.Some?
    ensures PolicyOf(o).None? ==> g.coordinates == f.coordinates && g.timeStamps == Some(StampsOf(f))
    ensures PolicyOf(o).Some? ==>
      ThinningResult(g.coordinates, g.timeStamps.value) == Thin(PolicyOf(o).value, f.coordinates, StampsOf(f), parse, dist)
  {
    var ts := StampsOf(f);
    var p := PolicyOf(o);
    var result := if p.None? then ThinningResult(f.coordinates, ts) else Thin(p.value, f.coordinates, ts, parse, dist);
    f.(coordinates := result.coordinates, timeStamps := Some(result.timeStamps))
  }

  /**
   * `processedGeoJsonData`: null without loaded data; otherwise the same
   * collection with each feature processed, in the same order.
   */
  function ProcessedGeoJsonData<C, G, P>(data: Option<LineCollection<C, G, P>>, o: ThinningOptions,
                                         parse: string -> Option<int>, dist: (Coord, Coord) -> real)
    : (r: Option<LineCollection<C, G, P>>)
    requires StrideIsWhole(o)
    ensures r.None? <==> data.None?
    ensures r.Some? ==>
      && r.value.rest == data.value.rest
      && |r.value.features| == |data.value.features|
      && forall i :: 0 <= i < |r.value.features| ==>
           r.value.features[i] == ProcessFeature(o, data.value.features[i], parse, dist)
  {
    if data.None? then None
    else
      var fs := data.value.features;
      Some(data.value.(features := seq(|fs|, i requires 0 <= i < |fs| => ProcessFeature(o, fs[i], parse, dist))))
  }

  /**
   * With the type 'none' or a null value every feature keeps its coordinates
   * and its timestamps, an absent array becoming the empty one.
   */
  lemma UnthinnedKeepsFeatures<C, G, P>(data: LineCollection<C, G, P>, o: ThinningOptions,
                                        parse: string -> Option<int>, dist: (Coord, Coord) -> real)
    requires o.kind == NoThinning || o.value.None?
    ensures StrideIsWhole(o)
    ensures var r := ProcessedGeoJsonData(Some(data), o, parse, dist).value;
      forall i :: 0 <= i < |data.features| ==>
        && r.features[i].coordinates == data.features[i].coordinates
        && r.features[i].timeStamps == Some(if data.features[i].timeStamps.Some? then data.features[i].timeStamps.value else [])
  {
  }

  /**
   * Whatever the policy, every processed feature is a thinning of its input:
   * at most two points come back unchanged, and a longer track with paired
   * timestamps comes back as an order-preserving, still paired subsequence
   * that keeps its first and its last point.
   */
  lemma ProcessedKeepsEndpointsAndOrder<G, P>(o: ThinningOptions, f: LineFeature<G, P>,
                                             parse: string -> Option<int>, dist: (Coord, Coord) -> real)
    requires StrideIsWhole(o)
    ensures var g := ProcessFeature(o, f, parse, dist);
      && (|f.coordinates| <= 2 ==> g.coordinates == f.coordinates && g.timeStamps == Some(StampsOf(f)))
      && (|f.coordinates| >= 3 && f.timeStamps.Some? && Paired(f.coordinates, f.timeStamps.value) ==>
            IsSubtrack(f.coordinates, f.timeStamps.value, ThinningResult(g.coordinates, g.timeStamps.value)))
  {
    if |f.coordinates| >= 3 && f.timeStamps.Some? && Paired(f.coordinates, f.timeStamps.value) {
      if PolicyOf(o).Some? {
        ThinKeepsEndpointsAndOrder(PolicyOf(o).value, f.coordinates, StampsOf(f), parse, dist);
      } else {
        WholeIsSubtrack(f.coordinates, f.timeStamps.value);
      }
    } else if PolicyOf(o).Some? {
      ThinKeepsEndpointsAndOrder(PolicyOf(o).value, f.coordinates, StampsOf(f), parse, dist);
    }
  }

  /**
   * A feature without a `timeStamps` array reaches the engine with an empty
   * one: the coordinates still keep their first and last point, and every
   * timestamp of the result is missing. The time policy then finds no
   * reference time and keeps only the two end points.
   */
  lemma ProcessedWithoutTimestamps<G, P>(o: ThinningOptions, f: LineFeature<G, P>,
                                        parse: string -> Option<int>, dist: (Coord, Coord) -> real)
    requires StrideIsWhole(o) && PolicyOf(o).Some?
    requires f.timeStamps.None? && |f.coordinates| >= 3
    ensures var g := ProcessFeature(o, f, parse, dist);
      && |g.timeStamps.value| == |g.coordinates| >= 2
      && g.coordinates[0] == f.coordinates[0]
      && g.coordinates[|g.coordinates| - 1] == f.coordinates[|f.coordinates| - 1]
      && (forall j :: 0 <= j < |g.timeStamps.value| ==> g.timeStamps.value[j].None?)
      && (o.kind == Time ==> g.coordinates == [f.coordinates[0], f.coordinates[|f.coordinates| - 1]])
  {
    var p := PolicyOf(o).value;
    var cs := f.coordinates;
    ThinIsAssembled(p, cs, [], parse, dist);
    var K :| Interior(K, |cs|) && Thin(p, cs, [], parse, dist) == Assemble(cs, [], K);
    var r := Assemble(cs, [], K);
    assert forall j :: 0 <= j < |r.timeStamps| ==> r.timeStamps[j].None?;
    if o.kind == Time {
      ThinByTimeWithoutReference(cs, [], o.value.value, parse);
    }
  }
}
