/**
 * Conversion between the decoded GPX files and a GeoJSON FeatureCollection
 * of LineStrings, in both directions.
 *
 * GPX to GeoJSON: every segment with at least two points becomes one feature,
 * in file, track, segment order, its positions written longitude first
 * (section 3.1.1 of RFC 7946) and its properties recording where it came
 * from. GeoJSON to GPX: features are grouped by file name in order of first
 * appearance; each group becomes one `<trk>` with one `<trkseg>` per feature
 * and one `<trkpt lat lon>` per position (GPX 1.1, topografix.com/GPX/1/1).
 */
module GeoJsonConverter {
  import opened Wrappers
  import opened Geo
  import opened Gpx
  import opened Text
  import opened GpxParser

  // ---------------------------------------------------------------------------
  // GPX to GeoJSON
  // ---------------------------------------------------------------------------

  datatype FeatureProperties = FeatureProperties(
    fileName: string,
    trackName: string,
    fileIndex: nat,
    trackIndex: nat,
    segmentIndex: nat)

  /** A `Feature` whose geometry is a `LineString`. */
  datatype LineFeature = LineFeature(coordinates: seq<Coord>, properties: FeatureProperties)

  /** Where a segment sits in the input: file, track and segment positions. */
  datatype SegmentAddress = SegmentAddress(file: nat, track: nat, segment: nat)

  function AddressOf(f: LineFeature): SegmentAddress {
    SegmentAddress(f.properties.fileIndex, f.properties.trackIndex, f.properties.segmentIndex)
  }

  /** Document order on addresses. */
  predicate Before(a: SegmentAddress, b: SegmentAddress) {
    || a.file < b.file
    || (a.file == b.file && a.track < b.track)
    || (a.file == b.file && a.track == b.track && a.segment < b.segment)
  }

  /** A point as a GeoJSON position: `[lon, lat]`. */
  function PointCoord(p: TrackPoint): (c: Coord)
    ensures c.lon == p.lon && c.lat == p.lat
  {
    Coord(p.lon, p.lat)
  }

  function SegmentCoordinates(seg: TrackSegment): (cs: seq<Coord>)
    ensures |cs| == |seg.points|
    ensures forall i :: 0 <= i < |cs| ==> cs[i] == PointCoord(seg.points[i])
  {
    seq(|seg.points|, i requires 0 <= i < |seg.points| => PointCoord(seg.points[i]))
  }

  /** `track.name || \`Track ${trackIndex + 1}\``. */
  function TrackLabel(track: Track, trackIndex: nat): string {
    if track.name.Some? && track.name.value != "" then track.name.value else "Track " + NatToString(trackIndex + 1)
  }

  /** A track whose name is absent or empty, so that it gets the default label. */
  predicate Unnamed(t: Track) {
    t.name.None? || t.name.value == ""
  }

  /** Unnamed tracks at different positions get different labels. */
  lemma DefaultLabelsDiffer(t1: Track, i1: nat, t2: Track, i2: nat)
    requires Unnamed(t1) && Unnamed(t2) && i1 != i2
    ensures TrackLabel(t1, i1) != TrackLabel(t2, i2)
  {
    var s1 := NatToString(i1 + 1);
    var s2 := NatToString(i2 + 1);
    assert s1 != s2 by {
      assert DigitsValue(s1) != DigitsValue(s2);
    }
    assert TrackLabel(t1, i1)[6..] == s1;
    assert TrackLabel(t2, i2)[6..] == s2;
  }

  /** Only segments with more than one point become features. */
  predicate IsLong(seg: TrackSegment) {
    |seg.points| > 1
  }

  /**
   * `f` is the feature of segment `f.properties.segmentIndex` of track
   * `trackIndex` of file `fileIndex`: that segment exists, is long, and
   * `f` carries its positions, its file's name and its track's label.
   */
  ghost predicate Describes(files: seq<GpxFile>, f: LineFeature) {
    var a := AddressOf(f);
    && a.file < |files|
    && a.track < |files[a.file].tracks|
    && a.segment < |files[a.file].tracks[a.track].segments|
    && var seg := files[a.file].tracks[a.track].segments[a.segment];
       && IsLong(seg)
       && f.coordinates == SegmentCoordinates(seg)
       && f.properties.fileName == files[a.file].name
       && f.properties.trackName == TrackLabel(files[a.file].tracks[a.track], a.track)
  }

  /** The features come in strictly increasing document order. */
  ghost predicate InDocumentOrder(fs: seq<LineFeature>) {
    forall k, k' :: 0 <= k < k' < |fs| ==> Before(AddressOf(fs[k]), AddressOf(fs[k']))
  }

  /** Some feature comes from the segment at `a`. */
  ghost predicate Emitted(fs: seq<LineFeature>, a: SegmentAddress) {
    exists k :: 0 <= k < |fs| && AddressOf(fs[k]) == a
  }

  /** The features of segments `si ..` of one track. */
  function SegmentFeatures(files: seq<GpxFile>, fi: nat, ti: nat, si: nat): (fs: seq<LineFeature>)
    requires fi < |files| && ti < |files[fi].tracks| && si <= |files[fi].tracks[ti].segments|
    ensures forall k :: 0 <= k < |fs| ==>
      Describes(files, fs[k]) && AddressOf(fs[k]).file == fi && AddressOf(fs[k]).track == ti && AddressOf(fs[k]).segment >= si
    ensures InDocumentOrder(fs)
    decreases |files[fi].tracks[ti].segments| - si
  {
    var file := files[fi];
    var track := file.tracks[ti];
    if si == |track.segments| then []
    else
      var rest := SegmentFeatures(files, fi, ti, si + 1);
      var seg := track.segments[si];
      if IsLong(seg) then
        var f := LineFeature(SegmentCoordinates(seg), FeatureProperties(file.name, TrackLabel(track, ti), fi, ti, si));
        ConcatFacts([f], rest);
        [f] + rest
      else rest
  }

  /** Every long segment from `si` on has its feature. */
  lemma {:induction false} SegmentFeaturesComplete(files: seq<GpxFile>, fi: nat, ti: nat, si: nat)
    requires fi < |files| && ti < |files[fi].tracks| && si <= |files[fi].tracks[ti].segments|
    ensures forall s :: si <= s < |files[fi].tracks[ti].segments| && IsLong(files[fi].tracks[ti].segments[s]) ==>
      Emitted(SegmentFeatures(files, fi, ti, si), SegmentAddress(fi, ti, s))
    decreases |files[fi].tracks[ti].segments| - si
  {
    var segs := files[fi].tracks[ti].segments;
    if si < |segs| {
      var rest := SegmentFeatures(files, fi, ti, si + 1);
      SegmentFeaturesComplete(files, fi, ti, si + 1);
      var fs := SegmentFeatures(files, fi, ti, si);
      if IsLong(segs[si]) {
        var f := fs[0];
        assert fs == [f] + rest;
        assert AddressOf([f][0]) == SegmentAddress(fi, ti, si);
        ConcatFacts([f], rest);
      } else {
        assert fs == rest;
      }
    }
  }

  /** The features of tracks `ti ..` of one file. */
  function TrackFeatures(files: seq<GpxFile>, fi: nat, ti: nat): (fs: seq<LineFeature>)
    requires fi < |files| && ti <= |files[fi].tracks|
    ensures forall k :: 0 <= k < |fs| ==>
      Describes(files, fs[k]) && AddressOf(fs[k]).file == fi && AddressOf(fs[k]).track >= ti
    ensures InDocumentOrder(fs)
    decreases |files[fi].tracks| - ti
  {
    if ti == |files[fi].tracks| then []
    else
      var head := SegmentFeatures(files, fi, ti, 0);
      var rest := TrackFeatures(files, fi, ti + 1);
      ConcatFacts(head, rest);
      head + rest
  }

  /** Every long segment of tracks `ti ..` has its feature. */
  lemma {:induction false} TrackFeaturesComplete(files: seq<GpxFile>, fi: nat, ti: nat)
    requires fi < |files| && ti <= |files[fi].tracks|
    ensures forall t, s :: ti <= t < |files[fi].tracks| && 0 <= s < |files[fi].tracks[t].segments|
                           && IsLong(files[fi].tracks[t].segments[s]) ==>
      Emitted(TrackFeatures(files, fi, ti), SegmentAddress(fi, t, s))
    decreases |files[fi].tracks| - ti
  {
    if ti < |files[fi].tracks| {
      var head := SegmentFeatures(files, fi, ti, 0);
      var rest := TrackFeatures(files, fi, ti + 1);
      SegmentFeaturesComplete(files, fi, ti, 0);
      TrackFeaturesComplete(files, fi, ti + 1);
      ConcatFacts(head, rest);
      assert TrackFeatures(files, fi, ti) == head + rest;
    }
  }

  /** The features of files `fi ..`. */
  function FileFeatures(files: seq<GpxFile>, fi: nat): (fs: seq<LineFeature>)
    requires fi <= |files|
    ensures forall k :: 0 <= k < |fs| ==> Describes(files, fs[k]) && AddressOf(fs[k]).file >= fi
    ensures InDocumentOrder(fs)
    decreases |files| - fi
  {
    if fi == |files| then []
    else
      var head := TrackFeatures(files, fi, 0);
      var rest := FileFeatures(files, fi + 1);
      ConcatFacts(head, rest);
      head + rest
  }

  /** Every long segment of files `fi ..` has its feature. */
  lemma {:induction false} FileFeaturesComplete(files: seq<GpxFile>, fi: nat)
    requires fi <= |files|
    ensures forall f, t, s :: fi <= f < |files| && 0 <= t < |files[f].tracks| && 0 <= s < |files[f].tracks[t].segments|
                              && IsLong(files[f].tracks[t].segments[s]) ==>
      Emitted(FileFeatures(files, fi), SegmentAddress(f, t, s))
    decreases |files| - fi
  {
    if fi < |files| {
      var head := TrackFeatures(files, fi, 0);
      var rest := FileFeatures(files, fi + 1);
      TrackFeaturesComplete(files, fi, 0);
      FileFeaturesComplete(files, fi + 1);
      ConcatFacts(head, rest);
      assert FileFeatures(files, fi) == head + rest;
    }
  }

  /** Positions and emitted addresses of a concatenation, and its order when the parts are ordered. */
  lemma ConcatFacts(head: seq<LineFeature>, rest: seq<LineFeature>)
    ensures forall k :: 0 <= k < |head| ==> (head + rest)[k] == head[k]
    ensures forall k :: 0 <= k < |rest| ==> (head + rest)[|head| + k] == rest[k]
    ensures forall a :: Emitted(head, a) || Emitted(rest, a) ==> Emitted(head + rest, a)
    ensures InDocumentOrder(head) && InDocumentOrder(rest)
            && (forall k, k' :: 0 <= k < |head| && 0 <= k' < |rest| ==> Before(AddressOf(head[k]), AddressOf(rest[k'])))
            ==> InDocumentOrder(head + rest)
  {
    var fs := head + rest;
    forall a | Emitted(head, a) || Emitted(rest, a) ensures Emitted(fs, a) {
      if Emitted(head, a) {
        var k :| 0 <= k < |head| && AddressOf(head[k]) == a;
        assert fs[k] == head[k];
      } else {
        var k :| 0 <= k < |rest| && AddressOf(rest[k]) == a;
        assert fs[|head| + k] == rest[k];
      }
    }
  }

  /**
   * `convertGPXToGeoJSON`: the features of a FeatureCollection. Every
   * feature describes a long segment of the input (its positions, file name,
   * track label and original indices, so skipped segments leave gaps); the
   * features are in file, track, segment order; and every long segment has
   * its feature.
   */
  function ConvertGpxToGeoJson(files: seq<GpxFile>): (fs: seq<LineFeature>)
    ensures forall k :: 0 <= k < |fs| ==> Describes(files, fs[k])
    ensures InDocumentOrder(fs)
    ensures forall f, t, s :: 0 <= f < |files| && 0 <= t < |files[f].tracks| && 0 <= s < |files[f].tracks[t].segments|
                              && IsLong(files[f].tracks[t].segments[s]) ==>
      Emitted(fs, SegmentAddress(f, t, s))
  {
    FileFeaturesComplete(files, 0);
    FileFeatures(files, 0)
  }

  /** No files, no features. */
  lemma ConvertEmpty()
    ensures ConvertGpxToGeoJson([]) == []
  {
  }

  /** The number of long segments of a track. */
  function LongSegments(t: Track): nat {
    |Filter(t.segments, IsLong)|
  }

  function TrackLongCount(tracks: seq<Track>): nat
    decreases |tracks|
  {
    if tracks == [] then 0 else LongSegments(tracks[0]) + TrackLongCount(tracks[1..])
  }

  /** The number of long segments over all files. */
  function LongCount(files: seq<GpxFile>): nat
    decreases |files|
  {
    if files == [] then 0 else TrackLongCount(files[0].tracks) + LongCount(files[1..])
  }

  lemma {:induction false} SegmentFeaturesCount(files: seq<GpxFile>, fi: nat, ti: nat, si: nat)
    requires fi < |files| && ti < |files[fi].tracks| && si <= |files[fi].tracks[ti].segments|
    ensures |SegmentFeatures(files, fi, ti, si)| == |Filter(files[fi].tracks[ti].segments[si..], IsLong)|
    decreases |files[fi].tracks[ti].segments| - si
  {
    var segs := files[fi].tracks[ti].segments;
    if si < |segs| {
      SegmentFeaturesCount(files, fi, ti, si + 1);
      assert segs[si..][1..] == segs[si + 1..];
    }
  }

  lemma {:induction false} TrackFeaturesCount(files: seq<GpxFile>, fi: nat, ti: nat)
    requires fi < |files| && ti <= |files[fi].tracks|
    ensures |TrackFeatures(files, fi, ti)| == TrackLongCount(files[fi].tracks[ti..])
    decreases |files[fi].tracks| - ti
  {
    var tracks := files[fi].tracks;
    if ti < |tracks| {
      TrackFeaturesCount(files, fi, ti + 1);
      SegmentFeaturesCount(files, fi, ti, 0);
      assert tracks[ti].segments[0..] == tracks[ti].segments;
      assert tracks[ti..][1..] == tracks[ti + 1..];
    }
  }

  lemma {:induction false} FileFeaturesCount(files: seq<GpxFile>, fi: nat)
    requires fi <= |files|
    ensures |FileFeatures(files, fi)| == LongCount(files[fi..])
    decreases |files| - fi
  {
    if fi < |files| {
      FileFeaturesCount(files, fi + 1);
      TrackFeaturesCount(files, fi, 0);
      assert files[fi].tracks[0..] == files[fi].tracks;
      assert files[fi..][1..] == files[fi + 1..];
    }
  }

  /** One feature per segment with at least two points. */
  lemma ConvertCount(files: seq<GpxFile>)
    ensures |ConvertGpxToGeoJson(files)| == LongCount(files)
  {
    FileFeaturesCount(files, 0);
    assert files[0..] == files;
  }

  // ---------------------------------------------------------------------------
  // GeoJSON to GPX: grouping by file name
  // ---------------------------------------------------------------------------

  /** One entry of `tracksByFile`: a file name and its features in input order. */
  datatype FileGroup = FileGroup(fileName: string, features: seq<LineFeature>)

  function NameOf(f: LineFeature): string {
    f.properties.fileName
  }

  /** The features of `fs` with file name `name`, in order. */
  function OfFile(fs: seq<LineFeature>, name: string): seq<LineFeature>
    decreases |fs|
  {
    if fs == [] then [] else OfFile(fs[..|fs| - 1], name) + (if NameOf(fs[|fs| - 1]) == name then [fs[|fs| - 1]] else [])
  }

  /**
   * One step of the grouping loop: append `f` to the group of its file name,
   * creating that group at the end of the map when the name is new (a `Map`
   * iterates in insertion order).
   */
  function AddToGroups(groups: seq<FileGroup>, f: LineFeature): (r: seq<FileGroup>)
    ensures |r| == |groups| || |r| == |groups| + 1
    ensures forall i :: 0 <= i < |groups| ==> r[i].fileName == groups[i].fileName
    decreases |groups|
  {
    if groups == [] then [FileGroup(NameOf(f), [f])]
    else if groups[0].fileName == NameOf(f) then [groups[0].(features := groups[0].features + [f])] + groups[1..]
    else [groups[0]] + AddToGroups(groups[1..], f)
  }

  function GroupFeatures(fs: seq<LineFeature>): seq<FileGroup>
    decreases |fs|
  {
    if fs == [] then [] else AddToGroups(GroupFeatures(fs[..|fs| - 1]), fs[|fs| - 1])
  }

  /** File name `a` appears in `fs` before any feature of file `b`. */
  ghost predicate SeenBefore(fs: seq<LineFeature>, a: string, b: string) {
    exists i :: 0 <= i < |fs| && NameOf(fs[i]) == a && forall j :: 0 <= j <= i ==> NameOf(fs[j]) != b
  }

  /** No two groups share a file name. */
  ghost predicate NamesDistinct(groups: seq<FileGroup>) {
    forall i, j :: 0 <= i < j < |groups| ==> groups[i].fileName != groups[j].fileName
  }

  /** Each group holds exactly its file's features, in input order, and at least one. */
  ghost predicate GroupsHold(fs: seq<LineFeature>, groups: seq<FileGroup>) {
    forall i :: 0 <= i < |groups| ==> groups[i].features == OfFile(fs, groups[i].fileName) != []
  }

  /** Some group is for file `name`. */
  ghost predicate HasGroup(groups: seq<FileGroup>, name: string) {
    exists i :: 0 <= i < |groups| && groups[i].fileName == name
  }

  /** Every feature's file has a group. */
  ghost predicate GroupsCover(fs: seq<LineFeature>, groups: seq<FileGroup>) {
    forall k :: 0 <= k < |fs| ==> HasGroup(groups, NameOf(fs[k]))
  }

  /** The groups are in order of their file's first appearance. */
  ghost predicate InFirstAppearanceOrder(fs: seq<LineFeature>, groups: seq<FileGroup>) {
    forall i, j :: 0 <= i < j < |groups| ==> SeenBefore(fs, groups[i].fileName, groups[j].fileName)
  }

  /**
   * The groups of `fs`: one per distinct file name, in order of first
   * appearance, each holding exactly the features of that file in input order.
   */
  ghost predicate GroupsOf(fs: seq<LineFeature>, groups: seq<FileGroup>) {
    && NamesDistinct(groups)
    && GroupsHold(fs, groups)
    && GroupsCover(fs, groups)
    && InFirstAppearanceOrder(fs, groups)
  }

  /** A name with no feature so far has no features. */
  lemma {:induction false} OfFileAbsent(fs: seq<LineFeature>, name: string)
    requires forall k :: 0 <= k < |fs| ==> NameOf(fs[k]) != name
    ensures OfFile(fs, name) == []
    decreases |fs|
  {
    if fs != [] {
      OfFileAbsent(fs[..|fs| - 1], name);
    }
  }

  lemma {:induction false} AddToExisting(groups: seq<FileGroup>, f: LineFeature, i: nat)
    requires i < |groups| && groups[i].fileName == NameOf(f)
    requires forall j :: 0 <= j < i ==> groups[j].fileName != NameOf(f)
    ensures var r := AddToGroups(groups, f);
      && |r| == |groups|
      && r[i] == FileGroup(NameOf(f), groups[i].features + [f])
      && forall j :: 0 <= j < |groups| && j != i ==> r[j] == groups[j]
    decreases i
  {
    if i > 0 {
      AddToExisting(groups[1..], f, i - 1);
    }
  }

  lemma {:induction false} AddToNew(groups: seq<FileGroup>, f: LineFeature)
    requires forall j :: 0 <= j < |groups| ==> groups[j].fileName != NameOf(f)
    ensures AddToGroups(groups, f) == groups + [FileGroup(NameOf(f), [f])]
    decreases |groups|
  {
    if groups != [] {
      AddToNew(groups[1..], f);
    }
  }

  /** Appending a feature extends its own file's list and no other. */
  lemma OfFileSnoc(fs: seq<LineFeature>, f: LineFeature, name: string)
    ensures OfFile(fs + [f], name) == OfFile(fs, name) + (if NameOf(f) == name then [f] else [])
  {
    assert (fs + [f])[..|fs + [f]| - 1] == fs;
  }

  /** `SeenBefore` survives appending a feature. */
  lemma SeenBeforeSnoc(fs: seq<LineFeature>, f: LineFeature, a: string, b: string)
    requires SeenBefore(fs, a, b)
    ensures SeenBefore(fs + [f], a, b)
  {
    var fs' := fs + [f];
    var w :| 0 <= w < |fs| && NameOf(fs[w]) == a && forall j :: 0 <= j <= w ==> NameOf(fs[j]) != b;
    assert forall j :: 0 <= j <= w ==> fs'[j] == fs[j];
  }

  /** A feature whose file already has a group goes to the end of that group. */
  lemma GroupStepExisting(fs: seq<LineFeature>, f: LineFeature, groups: seq<FileGroup>, i: nat)
    requires GroupsOf(fs, groups) && i < |groups| && groups[i].fileName == NameOf(f)
    ensures GroupsOf(fs + [f], AddToGroups(groups, f))
  {
    var fs' := fs + [f];
    var r := AddToGroups(groups, f);
    AddToExisting(groups, f, i);
    assert NamesDistinct(r);
    forall j | 0 <= j < |r| ensures r[j].features == OfFile(fs', r[j].fileName) != [] {
      OfFileSnoc(fs, f, r[j].fileName);
    }
    forall k | 0 <= k < |fs'| ensures HasGroup(r, NameOf(fs'[k])) {
      if k < |fs| {
        assert fs'[k] == fs[k];
        var j :| 0 <= j < |groups| && groups[j].fileName == NameOf(fs[k]);
        assert r[j].fileName == groups[j].fileName;
      } else {
        assert r[i].fileName == NameOf(fs'[k]);
      }
    }
    forall j, j' | 0 <= j < j' < |r| ensures SeenBefore(fs', r[j].fileName, r[j'].fileName) {
      SeenBeforeSnoc(fs, f, groups[j].fileName, groups[j'].fileName);
    }
  }

  /** Some feature of `fs` has file name `name`. */
  lemma GroupHasFeature(fs: seq<LineFeature>, groups: seq<FileGroup>, i: nat)
    requires GroupsHold(fs, groups) && i < |groups|
    ensures exists w :: 0 <= w < |fs| && NameOf(fs[w]) == groups[i].fileName
  {
    var g := groups[i].features;
    OfFileMembers(fs, groups[i].fileName);
    assert g[0] in OfFile(fs, groups[i].fileName);
  }

  /** A feature of a new file: the old groups keep their features and the new one holds just it. */
  lemma GroupStepNewHold(fs: seq<LineFeature>, f: LineFeature, groups: seq<FileGroup>)
    requires GroupsOf(fs, groups)
    requires forall j :: 0 <= j < |groups| ==> groups[j].fileName != NameOf(f)
    ensures GroupsHold(fs + [f], groups + [FileGroup(NameOf(f), [f])])
  {
    var fs' := fs + [f];
    var r := groups + [FileGroup(NameOf(f), [f])];
    assert forall k :: 0 <= k < |fs| ==> NameOf(fs[k]) != NameOf(f);
    OfFileAbsent(fs, NameOf(f));
    forall j | 0 <= j < |r| ensures r[j].features == OfFile(fs', r[j].fileName) != [] {
      OfFileSnoc(fs, f, r[j].fileName);
    }
  }

  lemma GroupStepNewCover(fs: seq<LineFeature>, f: LineFeature, groups: seq<FileGroup>)
    requires GroupsCover(fs, groups)
    ensures GroupsCover(fs + [f], groups + [FileGroup(NameOf(f), [f])])
  {
    var fs' := fs + [f];
    var r := groups + [FileGroup(NameOf(f), [f])];
    forall k | 0 <= k < |fs'| ensures HasGroup(r, NameOf(fs'[k])) {
      if k < |fs| {
        assert fs'[k] == fs[k];
        var j :| 0 <= j < |groups| && groups[j].fileName == NameOf(fs[k]);
        assert r[j] == groups[j];
      } else {
        assert r[|groups|].fileName == NameOf(fs'[k]);
      }
    }
  }

  lemma GroupStepNewOrder(fs: seq<LineFeature>, f: LineFeature, groups: seq<FileGroup>)
    requires GroupsHold(fs, groups) && InFirstAppearanceOrder(fs, groups)
    requires forall k :: 0 <= k < |fs| ==> NameOf(fs[k]) != NameOf(f)
    ensures InFirstAppearanceOrder(fs + [f], groups + [FileGroup(NameOf(f), [f])])
  {
    var fs' := fs + [f];
    var r := groups + [FileGroup(NameOf(f), [f])];
    forall j, j' | 0 <= j < j' < |r| ensures SeenBefore(fs', r[j].fileName, r[j'].fileName) {
      if j' < |groups| {
        SeenBeforeSnoc(fs, f, groups[j].fileName, groups[j'].fileName);
      } else {
        GroupHasFeature(fs, groups, j);
        var w :| 0 <= w < |fs| && NameOf(fs[w]) == groups[j].fileName;
        assert forall m :: 0 <= m <= w ==> fs'[m] == fs[m];
        assert NameOf(fs'[w]) == r[j].fileName;
      }
    }
  }

  /** A feature of a new file opens a new group at the end. */
  lemma GroupStepNew(fs: seq<LineFeature>, f: LineFeature, groups: seq<FileGroup>)
    requires GroupsOf(fs, groups)
    requires forall j :: 0 <= j < |groups| ==> groups[j].fileName != NameOf(f)
    ensures GroupsOf(fs + [f], AddToGroups(groups, f))
  {
    AddToNew(groups, f);
    var r := groups + [FileGroup(NameOf(f), [f])];
    assert NamesDistinct(r);
    GroupStepNewHold(fs, f, groups);
    GroupStepNewCover(fs, f, groups);
    assert forall k :: 0 <= k < |fs| ==> NameOf(fs[k]) != NameOf(f);
    GroupStepNewOrder(fs, f, groups);
  }

  /** Grouping a prefix and then one more feature keeps the grouping invariant. */
  lemma GroupStep(fs: seq<LineFeature>, f: LineFeature, groups: seq<FileGroup>)
    requires GroupsOf(fs, groups)
    ensures GroupsOf(fs + [f], AddToGroups(groups, f))
  {
    if exists i :: 0 <= i < |groups| && groups[i].fileName == NameOf(f) {
      var i :| 0 <= i < |groups| && groups[i].fileName == NameOf(f);
      GroupStepExisting(fs, f, groups, i);
    } else {
      GroupStepNew(fs, f, groups);
    }
  }

  /** Every feature of a file's list is a feature of the input with that file name. */
  lemma {:induction false} OfFileMembers(fs: seq<LineFeature>, name: string)
    ensures forall x :: x in OfFile(fs, name) ==> NameOf(x) == name && exists w :: 0 <= w < |fs| && fs[w] == x
    decreases |fs|
  {
    if fs != [] {
      OfFileMembers(fs[..|fs| - 1], name);
      forall x | x in OfFile(fs, name) ensures NameOf(x) == name && exists w :: 0 <= w < |fs| && fs[w] == x {
        if x in OfFile(fs[..|fs| - 1], name) {
          var w :| 0 <= w < |fs[..|fs| - 1]| && fs[..|fs| - 1][w] == x;
          assert fs[w] == x;
        } else {
          assert fs[|fs| - 1] == x;
        }
      }
    }
  }

  /**
   * The grouping loop of `convertGeoJSONToGPX`: one group per distinct file
   * name, in order of first appearance, each with exactly that file's
   * features in input order, and every feature in its file's group.
   */
  lemma {:induction false} GroupFeaturesSpec(fs: seq<LineFeature>)
    ensures GroupsOf(fs, GroupFeatures(fs))
    decreases |fs|
  {
    if fs != [] {
      var prefix := fs[..|fs| - 1];
      var f := fs[|fs| - 1];
      assert prefix + [f] == fs;
      assert GroupFeatures(fs) == AddToGroups(GroupFeatures(prefix), f);
      GroupFeaturesSpec(prefix);
      GroupStep(prefix, f, GroupFeatures(prefix));
    }
  }

  // ---------------------------------------------------------------------------
  // GeoJSON to GPX: emission
  // ---------------------------------------------------------------------------

  /** A position as a `<trkpt>`: latitude and longitude swapped back; no elevation or time. */
  function PositionPoint(c: Coord): (p: TrackPoint)
    ensures PointCoord(p) == c
  {
    TrackPoint(c.lat, c.lon, None, None)
  }

  /** One `<trkseg>` per feature. */
  function FeatureSegment(f: LineFeature): (seg: TrackSegment)
    ensures SegmentCoordinates(seg) == f.coordinates
  {
    var seg := TrackSegment(seq(|f.coordinates|, k requires 0 <= k < |f.coordinates| => PositionPoint(f.coordinates[k])));
    assert SegmentCoordinates(seg) == f.coordinates;
    seg
  }

  function FeatureSegments(fs: seq<LineFeature>): (segs: seq<TrackSegment>)
    ensures |segs| == |fs|
    ensures forall j :: 0 <= j < |fs| ==> segs[j] == FeatureSegment(fs[j])
  {
    seq(|fs|, j requires 0 <= j < |fs| => FeatureSegment(fs[j]))
  }

  /** One `<trk>` per file group, named after the file. */
  function GroupTrack(g: FileGroup): (t: Track)
    ensures t.name == Some(g.fileName) && |t.segments| == |g.features|
    ensures forall j :: 0 <= j < |t.segments| ==> SegmentCoordinates(t.segments[j]) == g.features[j].coordinates
  {
    Track(Some(g.fileName), FeatureSegments(g.features))
  }

  function GroupTracks(groups: seq<FileGroup>): (tracks: seq<Track>)
    ensures |tracks| == |groups|
    ensures forall i :: 0 <= i < |groups| ==> tracks[i] == GroupTrack(groups[i])
  {
    seq(|groups|, i requires 0 <= i < |groups| => GroupTrack(groups[i]))
  }

  /**
   * The track structure `convertGeoJSONToGPX` writes: the groups of the
   * features, one track each. Reading the positions of the written points
   * back gives the features' coordinates.
   */
  function ConvertGeoJsonToTracks(fs: seq<LineFeature>): (tracks: seq<Track>)
    ensures var groups := GroupFeatures(fs);
      && GroupsOf(fs, groups)
      && |tracks| == |groups|
      && forall i :: 0 <= i < |tracks| ==>
           && tracks[i].name == Some(groups[i].fileName)
           && |tracks[i].segments| == |groups[i].features|
           && forall j :: 0 <= j < |tracks[i].segments| ==>
                SegmentCoordinates(tracks[i].segments[j]) == groups[i].features[j].coordinates
  {
    var groups := GroupFeatures(fs);
    GroupFeaturesSpec(fs);
    GroupTracks(groups)
  }

  /** The number of positions of a feature list. */
  function CoordinateCount(fs: seq<LineFeature>): nat
    decreases |fs|
  {
    if fs == [] then 0 else CoordinateCount(fs[..|fs| - 1]) + |fs[|fs| - 1].coordinates|
  }

  function GroupCoordinateCount(groups: seq<FileGroup>): nat
    decreases |groups|
  {
    if groups == [] then 0 else CoordinateCount(groups[0].features) + GroupCoordinateCount(groups[1..])
  }

  /** The number of `<trkpt>` elements of a track list. */
  function PointCount(tracks: seq<Track>): nat
    decreases |tracks|
  {
    if tracks == [] then 0 else SegmentPointCount(tracks[0].segments) + PointCount(tracks[1..])
  }

  function SegmentPointCount(segs: seq<TrackSegment>): nat
    decreases |segs|
  {
    if segs == [] then 0 else SegmentPointCount(segs[..|segs| - 1]) + |segs[|segs| - 1].points|
  }

  lemma {:induction false} AddToGroupsCount(groups: seq<FileGroup>, f: LineFeature)
    ensures GroupCoordinateCount(AddToGroups(groups, f)) == GroupCoordinateCount(groups) + |f.coordinates|
    decreases |groups|
  {
    if groups == [] {
      var r := AddToGroups(groups, f);
      assert r == [FileGroup(NameOf(f), [f])];
      assert [f][..0] == [];
      assert CoordinateCount([f]) == |f.coordinates|;
      assert GroupCoordinateCount(r) == CoordinateCount([f]) + GroupCoordinateCount(r[1..]);
      assert r[1..] == [];
    } else if groups[0].fileName == NameOf(f) {
      var g := groups[0].features + [f];
      assert g[..|g| - 1] == groups[0].features;
      assert AddToGroups(groups, f)[1..] == groups[1..];
    } else {
      AddToGroupsCount(groups[1..], f);
      assert AddToGroups(groups, f)[1..] == AddToGroups(groups[1..], f);
    }
  }

  /** Grouping neither loses nor duplicates a position. */
  lemma {:induction false} GroupFeaturesCount(fs: seq<LineFeature>)
    ensures GroupCoordinateCount(GroupFeatures(fs)) == CoordinateCount(fs)
    decreases |fs|
  {
    if fs != [] {
      GroupFeaturesCount(fs[..|fs| - 1]);
      AddToGroupsCount(GroupFeatures(fs[..|fs| - 1]), fs[|fs| - 1]);
    }
  }

  lemma {:induction false} FeatureSegmentsCount(fs: seq<LineFeature>)
    ensures SegmentPointCount(FeatureSegments(fs)) == CoordinateCount(fs)
    decreases |fs|
  {
    if fs != [] {
      var segs := FeatureSegments(fs);
      var prefix := fs[..|fs| - 1];
      FeatureSegmentsCount(prefix);
      assert segs[..|segs| - 1] == FeatureSegments(prefix);
    }
  }

  lemma {:induction false} GroupTracksCount(groups: seq<FileGroup>)
    ensures PointCount(GroupTracks(groups)) == GroupCoordinateCount(groups)
    decreases |groups|
  {
    if groups != [] {
      var tracks := GroupTracks(groups);
      GroupTracksCount(groups[1..]);
      FeatureSegmentsCount(groups[0].features);
      assert tracks[1..] == GroupTracks(groups[1..]);
    }
  }

  /** The written GPX has exactly one `<trkpt>` per input position. */
  lemma ConvertPointCount(fs: seq<LineFeature>)
    ensures PointCount(ConvertGeoJsonToTracks(fs)) == CoordinateCount(fs)
  {
    GroupTracksCount(GroupFeatures(fs));
    GroupFeaturesCount(fs);
  }

  // ---------------------------------------------------------------------------
  // GeoJSON to GPX: the document text
  // ---------------------------------------------------------------------------

  const Footer: string := "</gpx>"

  /**
   * `<trkpt lat="…" lon="…"></trkpt>` on its own line; `num` is JavaScript's
   * number-to-string conversion, which is not part of this model.
   */
  function PointText(p: TrackPoint, num: real -> string): string {
    "\n      <trkpt lat=\"" + num(p.lat) + "\" lon=\"" + num(p.lon) + "\"></trkpt>"
  }

  function Concat(parts: seq<string>): string
    decreases |parts|
  {
    if parts == [] then "" else parts[0] + Concat(parts[1..])
  }

  function SegmentText(seg: TrackSegment, num: real -> string): string {
    "\n    <trkseg>"
    + Concat(seq(|seg.points|, k requires 0 <= k < |seg.points| => PointText(seg.points[k], num)))
    + "\n    </trkseg>"
  }

  /** The file name goes into `<name>` as it is: the source escapes nothing. */
  function TrackText(t: Track, num: real -> string): string {
    "  <trk>\n    <name>" + t.name.GetOr("") + "</name>"
    + Concat(seq(|t.segments|, j requires 0 <= j < |t.segments| => SegmentText(t.segments[j], num)))
    + "\n  </trk>"
  }

  /**
   * `convertGeoJSONToGPX`: the header (which carries the current time and so
   * is a parameter), every track's text in group order, and the footer.
   */
  function TracksText(tracks: seq<Track>, num: real -> string): string {
    Concat(seq(|tracks|, i requires 0 <= i < |tracks| => TrackText(tracks[i], num)))
  }

  function ConvertGeoJsonToGpx(fs: seq<LineFeature>, header: string, num: real -> string): (text: string)
    ensures |text| >= |header| + |Footer|
    ensures text[..|header|] == header
    ensures text[|text| - |Footer|..] == Footer
  {
    var body := TracksText(ConvertGeoJsonToTracks(fs), num);
    var text := header + body + Footer;
    assert text[..|header|] == header;
    assert text[|text| - |Footer|..] == Footer;
    text
  }

  /** Without features the document is the header followed by the footer. */
  lemma ConvertNoFeatures(header: string, num: real -> string)
    ensures ConvertGeoJsonToGpx([], header, num) == header + Footer
  {
    assert ConvertGeoJsonToTracks([]) == [];
  }
}
