/**
 * The two computations of the thinning map component: the start and end
 * markers of every track (`createPointFeatures`), and the initial view, which
 * centres the map on the bounding box of all coordinates and picks a zoom
 * level from the box's larger side.
 *
 * Coordinates are finite reals: the `isFinite` test of the source can only
 * fail here when there is no coordinate at all, which is the `None` box.
 */
module ThinningMap {
  import opened Wrappers
  import opened Geo

  // ---------------------------------------------------------------------------
  // Start and end markers
  // ---------------------------------------------------------------------------

  datatype MarkerKind = Start | End

  /** A Point feature with properties `{type, trackIndex}`. */
  datatype Marker = Marker(position: Coord, kind: MarkerKind, trackIndex: nat)

  function Min(a: int, b: int): int {
    if a <= b then a else b
  }

  /** The markers of one track: none, a start, or a start and an end. */
  function TrackMarkers(coords: seq<Coord>, index: nat): (ms: seq<Marker>)
    ensures |ms| == Min(|coords|, 2)
    ensures forall k :: 0 <= k < |ms| ==> ms[k].trackIndex == index
    ensures |ms| >= 1 ==> ms[0] == Marker(coords[0], Start, index)
    ensures |ms| == 2 ==> ms[1] == Marker(coords[|coords| - 1], End, index)
  {
    if |coords| == 0 then []
    else if |coords| == 1 then [Marker(coords[0], Start, index)]
    else [Marker(coords[0], Start, index), Marker(coords[|coords| - 1], End, index)]
  }

  /**
   * `m` is a marker of its track: a start marker sits on the track's first
   * coordinate, an end marker on the last coordinate of a track of two or
   * more.
   */
  ghost predicate IsMarkerOf(tracks: seq<seq<Coord>>, m: Marker) {
    && m.trackIndex < |tracks|
    && var cs := tracks[m.trackIndex];
       && (m.kind == Start ==> |cs| >= 1 && m.position == cs[0])
       && (m.kind == End ==> |cs| >= 2 && m.position == cs[|cs| - 1])
  }

  /** Markers come track by track, a start before the end of the same track. */
  predicate MarkerBefore(a: Marker, b: Marker) {
    a.trackIndex < b.trackIndex || (a.trackIndex == b.trackIndex && a.kind == Start && b.kind == End)
  }

  /** `createPointFeatures` over the tracks from position `from` on. */
  function MarkersFrom(tracks: seq<seq<Coord>>, from: nat): (ms: seq<Marker>)
    requires from <= |tracks|
    ensures forall k :: 0 <= k < |ms| ==> from <= ms[k].trackIndex && IsMarkerOf(tracks, ms[k])
    ensures forall k, k' :: 0 <= k < k' < |ms| ==> MarkerBefore(ms[k], ms[k'])
    ensures forall i :: from <= i < |tracks| && |tracks[i]| >= 1 ==> Marker(tracks[i][0], Start, i) in ms
    ensures forall i :: from <= i < |tracks| && |tracks[i]| >= 2 ==> Marker(tracks[i][|tracks[i]| - 1], End, i) in ms
    decreases |tracks| - from
  {
    if from == |tracks| then []
    else
      var head := TrackMarkers(tracks[from], from);
      var rest := MarkersFrom(tracks, from + 1);
      MarkersStep(tracks, from, head, rest);
      head + rest
  }

  /** Prepending a track's own markers to the markers of the later tracks keeps every property of `MarkersFrom`. */
  lemma MarkersStep(tracks: seq<seq<Coord>>, from: nat, head: seq<Marker>, rest: seq<Marker>)
    requires from < |tracks| && head == TrackMarkers(tracks[from], from)
    requires forall k :: 0 <= k < |rest| ==> from + 1 <= rest[k].trackIndex && IsMarkerOf(tracks, rest[k])
    requires forall k, k' :: 0 <= k < k' < |rest| ==> MarkerBefore(rest[k], rest[k'])
    requires forall i :: from + 1 <= i < |tracks| && |tracks[i]| >= 1 ==> Marker(tracks[i][0], Start, i) in rest
    requires forall i :: from + 1 <= i < |tracks| && |tracks[i]| >= 2 ==> Marker(tracks[i][|tracks[i]| - 1], End, i) in rest
    ensures var ms := head + rest;
      && (forall k :: 0 <= k < |ms| ==> from <= ms[k].trackIndex && IsMarkerOf(tracks, ms[k]))
      && (forall k, k' :: 0 <= k < k' < |ms| ==> MarkerBefore(ms[k], ms[k']))
      && (forall i :: from <= i < |tracks| && |tracks[i]| >= 1 ==> Marker(tracks[i][0], Start, i) in ms)
      && (forall i :: from <= i < |tracks| && |tracks[i]| >= 2 ==> Marker(tracks[i][|tracks[i]| - 1], End, i) in ms)
  {
    var ms := head + rest;
    assert forall k :: |head| <= k < |ms| ==> ms[k] == rest[k - |head|];
    assert forall k :: 0 <= k < |head| ==> ms[k] == head[k];
    forall k | 0 <= k < |ms| ensures from <= ms[k].trackIndex && IsMarkerOf(tracks, ms[k]) {
      if k >= |head| {
        assert ms[k] == rest[k - |head|];
      }
    }
    forall k, k' | 0 <= k < k' < |ms| ensures MarkerBefore(ms[k], ms[k']) {
      if k' < |head| {
        assert k == 0 && k' == 1;
      } else if k >= |head| {
        assert MarkerBefore(rest[k - |head|], rest[k' - |head|]);
      } else {
        assert ms[k'] == rest[k' - |head|];
      }
    }
    forall i | from <= i < |tracks| && |tracks[i]| >= 1 ensures Marker(tracks[i][0], Start, i) in ms {
      if i == from {
        assert ms[0] == head[0];
      } else {
        assert Marker(tracks[i][0], Start, i) in rest;
      }
    }
    forall i | from <= i < |tracks| && |tracks[i]| >= 2 ensures Marker(tracks[i][|tracks[i]| - 1], End, i) in ms {
      if i == from {
        assert ms[1] == head[1];
      } else {
        assert Marker(tracks[i][|tracks[i]| - 1], End, i) in rest;
      }
    }
  }

  /**
   * `createPointFeatures`: every marker belongs to a track and sits on its
   * first or last coordinate; markers come track by track, start before end,
   * with no repeats; a track with a coordinate has its start marker and a
   * track with two or more its end marker.
   */
  function CreatePointFeatures(tracks: seq<seq<Coord>>): (ms: seq<Marker>)
    ensures forall k :: 0 <= k < |ms| ==> IsMarkerOf(tracks, ms[k])
    ensures forall k, k' :: 0 <= k < k' < |ms| ==> MarkerBefore(ms[k], ms[k'])
    ensures forall i :: 0 <= i < |tracks| && |tracks[i]| >= 1 ==> Marker(tracks[i][0], Start, i) in ms
    ensures forall i :: 0 <= i < |tracks| && |tracks[i]| >= 2 ==> Marker(tracks[i][|tracks[i]| - 1], End, i) in ms
  {
    MarkersFrom(tracks, 0)
  }

  /** The number of markers a track list should get: at most two per track. */
  function MarkerBudget(tracks: seq<seq<Coord>>): nat
    decreases |tracks|
  {
    if tracks == [] then 0 else Min(|tracks[0]|, 2) + MarkerBudget(tracks[1..])
  }

  lemma {:induction false} MarkersFromCount(tracks: seq<seq<Coord>>, from: nat)
    requires from <= |tracks|
    ensures |MarkersFrom(tracks, from)| == MarkerBudget(tracks[from..])
    decreases |tracks| - from
  {
    if from < |tracks| {
      MarkersFromCount(tracks, from + 1);
      assert tracks[from..][1..] == tracks[from + 1..];
    }
  }

  /** The marker count is the sum over tracks of min(|coords|, 2). */
  lemma MarkerCount(tracks: seq<seq<Coord>>)
    ensures |CreatePointFeatures(tracks)| == MarkerBudget(tracks)
  {
    MarkersFromCount(tracks, 0);
    assert tracks[0..] == tracks;
  }

  // ---------------------------------------------------------------------------
  // The initial view
  // ---------------------------------------------------------------------------

  /** The bounding box of a set of positions. */
  datatype Box = Box(minLon: real, maxLon: real, minLat: real, maxLat: real)

  function RealMin(a: real, b: real): real {
    if a <= b then a else b
  }

  function RealMax(a: real, b: real): real {
    if a >= b then a else b
  }

  /** One step of the bounds loop; `None` stands for the ±Infinity start values. */
  function Extend(box: Option<Box>, c: Coord): Box {
    if box.None? then Box(c.lon, c.lon, c.lat, c.lat)
    else Box(RealMin(box.value.minLon, c.lon), RealMax(box.value.maxLon, c.lon),
             RealMin(box.value.minLat, c.lat), RealMax(box.value.maxLat, c.lat))
  }

  function FoldBounds(box: Option<Box>, cs: seq<Coord>): Option<Box>
    decreases |cs|
  {
    if cs == [] then box else FoldBounds(Some(Extend(box, cs[0])), cs[1..])
  }

  /** Every coordinate of every track, in order. */
  function AllCoords(tracks: seq<seq<Coord>>): seq<Coord>
    decreases |tracks|
  {
    if tracks == [] then [] else tracks[0] + AllCoords(tracks[1..])
  }

  predicate Inside(b: Box, c: Coord) {
    b.minLon <= c.lon <= b.maxLon && b.minLat <= c.lat <= b.maxLat
  }

  /** `b` is the smallest box holding every position of `cs`: each side is reached. */
  ghost predicate IsBoundingBox(b: Box, cs: seq<Coord>) {
    && (forall i :: 0 <= i < |cs| ==> Inside(b, cs[i]))
    && (exists i :: 0 <= i < |cs| && cs[i].lon == b.minLon)
    && (exists i :: 0 <= i < |cs| && cs[i].lon == b.maxLon)
    && (exists i :: 0 <= i < |cs| && cs[i].lat == b.minLat)
    && (exists i :: 0 <= i < |cs| && cs[i].lat == b.maxLat)
  }

  /** Folding from a box that bounds `pre` gives the box that bounds `pre + cs`. */
  lemma {:induction false} FoldBoundsSpec(pre: seq<Coord>, box: Option<Box>, cs: seq<Coord>)
    requires box.None? <==> pre == []
    requires box.Some? ==> IsBoundingBox(box.value, pre)
    ensures FoldBounds(box, cs).None? <==> pre + cs == []
    ensures FoldBounds(box, cs).Some? ==> IsBoundingBox(FoldBounds(box, cs).value, pre + cs)
    decreases |cs|
  {
    if cs != [] {
      var c := cs[0];
      var b := Extend(box, c);
      var pre' := pre + [c];
      assert pre'[|pre|] == c;
      assert forall i :: 0 <= i < |pre| ==> pre'[i] == pre[i];
      assert IsBoundingBox(b, pre') by {
        if box.Some? {
          var bb := box.value;
          var i1 :| 0 <= i1 < |pre| && pre[i1].lon == bb.minLon;
          var i2 :| 0 <= i2 < |pre| && pre[i2].lon == bb.maxLon;
          var i3 :| 0 <= i3 < |pre| && pre[i3].lat == bb.minLat;
          var i4 :| 0 <= i4 < |pre| && pre[i4].lat == bb.maxLat;
          assert pre'[i1] == pre[i1] && pre'[i2] == pre[i2] && pre'[i3] == pre[i3] && pre'[i4] == pre[i4];
        }
      }
      FoldBoundsSpec(pre', Some(b), cs[1..]);
      var r := FoldBounds(Some(b), cs[1..]);
      assert FoldBounds(box, cs) == r;
      assert pre' + cs[1..] == pre + cs;
      assert IsBoundingBox(r.value, pre' + cs[1..]);
    } else {
      assert pre + cs == pre;
    }
  }

  /** The bounding box of all coordinates, `None` when there is none. */
  function Bounds(tracks: seq<seq<Coord>>): (b: Option<Box>)
    ensures b.None? <==> AllCoords(tracks) == []
    ensures b.Some? ==> IsBoundingBox(b.value, AllCoords(tracks))
  {
    FoldBoundsSpec([], None, AllCoords(tracks));
    assert [] + AllCoords(tracks) == AllCoords(tracks);
    FoldBounds(None, AllCoords(tracks))
  }

  /** The zoom level for the larger side of the box, in degrees. */
  function ZoomFor(maxDiff: real): (zoom: int)
    ensures zoom in {15, 12, 9, 7}
    ensures zoom == 15 <==> maxDiff < 0.01
    ensures zoom == 12 <==> 0.01 <= maxDiff < 0.1
    ensures zoom == 9 <==> 0.1 <= maxDiff < 1.0
    ensures zoom == 7 <==> maxDiff >= 1.0
  {
    if maxDiff < 0.01 then 15
    else if maxDiff < 0.1 then 12
    else if maxDiff < 1.0 then 9
    else 7
  }

  /** A larger extent never gets a closer zoom. */
  lemma ZoomMonotone(d1: real, d2: real)
    requires d1 <= d2
    ensures ZoomFor(d2) <= ZoomFor(d1)
  {
  }

  datatype ViewState = ViewState(longitude: real, latitude: real, zoom: int)

  /** The view used when there is nothing to fit: central Tokyo at zoom 10. */
  const DefaultView: ViewState := ViewState(139.7671, 35.6812, 10)

  /**
   * The `viewState` initialiser: the default view without any coordinate;
   * otherwise the centre of the bounding box, zoomed by its larger side.
   */
  function InitialViewState(tracks: seq<seq<Coord>>): (v: ViewState)
    ensures AllCoords(tracks) == [] ==> v == DefaultView
    ensures AllCoords(tracks) != [] ==>
      var b := Bounds(tracks).value;
      && v.longitude == (b.minLon + b.maxLon) / 2.0
      && v.latitude == (b.minLat + b.maxLat) / 2.0
      && v.zoom == ZoomFor(RealMax(b.maxLon - b.minLon, b.maxLat - b.minLat))
  {
    match Bounds(tracks)
    case None => DefaultView
    case Some(b) =>
      ViewState((b.minLon + b.maxLon) / 2.0, (b.minLat + b.maxLat) / 2.0,
                ZoomFor(RealMax(b.maxLon - b.minLon, b.maxLat - b.minLat)))
  }

  /**
   * With at least one coordinate the view centre lies inside the bounding box
   * of all coordinates, and a single point (or coincident points) gets the
   * closest zoom.
   */
  lemma CentreInsideBounds(tracks: seq<seq<Coord>>)
    requires AllCoords(tracks) != []
    ensures var v := InitialViewState(tracks);
      Inside(Bounds(tracks).value, Coord(v.longitude, v.latitude))
    ensures (forall i :: 0 <= i < |AllCoords(tracks)| ==> AllCoords(tracks)[i] == AllCoords(tracks)[0])
            ==> InitialViewState(tracks).zoom == 15
  {
    var cs := AllCoords(tracks);
    var b := Bounds(tracks).value;
    assert Inside(b, cs[0]);
    if forall i :: 0 <= i < |cs| ==> cs[i] == cs[0] {
      var i1 :| 0 <= i1 < |cs| && cs[i1].lon == b.minLon;
      var i2 :| 0 <= i2 < |cs| && cs[i2].lon == b.maxLon;
      var i3 :| 0 <= i3 < |cs| && cs[i3].lat == b.minLat;
      var i4 :| 0 <= i4 < |cs| && cs[i4].lat == b.maxLat;
      assert cs[i1] == cs[i2] == cs[i3] == cs[i4] == cs[0];
    }
  }
}
