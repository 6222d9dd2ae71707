/**
 * The tree logic of the GPX parser, applied after XML decoding: empty
 * segments and tracks are dropped, the file's `createdAt` is folded from the
 * point times, files are sorted by that date, and tracks are counted.
 *
 * The XML decoding itself (`DOMParser`, `parseFloat` of attributes, `new
 * Date` of `<time>` text) is outside the model: its output is the
 * `DecodedTrack` sequence below.
 */
module GpxParser {
  import opened Wrappers
  import opened Gpx

  // ---------------------------------------------------------------------------
  // Filtering
  // ---------------------------------------------------------------------------

  /** The elements of `s` that `keep` accepts, in their original order. */
  function Filter<T>(s: seq<T>, keep: T -> bool): (r: seq<T>)
    ensures |r| <= |s|
    decreases |s|
  {
    if s == [] then [] else (if keep(s[0]) then [s[0]] else []) + Filter(s[1..], keep)
  }

  /** The filter keeps exactly the accepted elements. */
  lemma {:induction false} FilterMembers<T>(s: seq<T>, keep: T -> bool)
    ensures forall i :: 0 <= i < |Filter(s, keep)| ==> Filter(s, keep)[i] in s && keep(Filter(s, keep)[i])
    ensures forall i :: 0 <= i < |s| && keep(s[i]) ==> s[i] in Filter(s, keep)
    decreases |s|
  {
    if s != [] {
      FilterMembers(s[1..], keep);
      var r := Filter(s, keep);
      var rest := Filter(s[1..], keep);
      forall i | 0 <= i < |r| ensures r[i] in s && keep(r[i]) {
        if !keep(s[0]) {
          assert r[i] == rest[i];
        } else if i > 0 {
          assert r[i] == rest[i - 1];
        }
      }
      forall i | 0 <= i < |s| && keep(s[i]) ensures s[i] in r {
        if i > 0 {
          assert s[i] == s[1..][i - 1];
        }
      }
    }
  }

  /** Filtering distributes over concatenation: it never reorders. */
  lemma {:induction false} FilterConcat<T>(a: seq<T>, b: seq<T>, keep: T -> bool)
    ensures Filter(a + b, keep) == Filter(a, keep) + Filter(b, keep)
    decreases |a|
  {
    if a == [] {
      assert a + b == b;
    } else {
      var h := if keep(a[0]) then [a[0]] else [];
      assert (a + b)[0] == a[0];
      assert (a + b)[1..] == a[1..] + b;
      assert Filter(a + b, keep) == h + Filter(a[1..] + b, keep);
      FilterConcat(a[1..], b, keep);
      assert Filter(a, keep) == h + Filter(a[1..], keep);
      assert h + (Filter(a[1..], keep) + Filter(b, keep)) == (h + Filter(a[1..], keep)) + Filter(b, keep);
    }
  }

  /** A filter that accepts everything is the identity. */
  lemma {:induction false} FilterKeepsAll<T>(s: seq<T>, keep: T -> bool)
    requires forall i :: 0 <= i < |s| ==> keep(s[i])
    ensures Filter(s, keep) == s
    decreases |s|
  {
    if s != [] {
      FilterKeepsAll(s[1..], keep);
    }
  }

  // ---------------------------------------------------------------------------
  // Building the track list
  // ---------------------------------------------------------------------------

  /**
   * A decoded `<trk>` element: the text of its first `<name>`, if there is
   * one, and its `<trkseg>` elements in document order, each with all of its
   * `<trkpt>` points (possibly none).
   */
  datatype DecodedTrack = DecodedTrack(nameText: Option<string>, segments: seq<TrackSegment>)

  /** `textContent || undefined`: an empty name is no name. */
  function TrackName(nameText: Option<string>): Option<string> {
    if nameText.Some? && nameText.value != "" then nameText else None
  }

  predicate NonEmptySegment(seg: TrackSegment) {
    |seg.points| > 0
  }

  /** The segments a track keeps. */
  function KeptSegments(dt: DecodedTrack): seq<TrackSegment> {
    Filter(dt.segments, NonEmptySegment)
  }

  /**
   * The `tracks` array: each decoded track with its non-empty segments, and
   * only when at least one segment is left.
   */
  function BuildTracks(decoded: seq<DecodedTrack>): (tracks: seq<Track>)
    ensures |tracks| <= |decoded|
    ensures forall i :: 0 <= i < |tracks| ==> |tracks[i].segments| > 0
    ensures forall i, j :: 0 <= i < |tracks| && 0 <= j < |tracks[i].segments| ==> |tracks[i].segments[j].points| > 0
    ensures forall dt :: dt in decoded && |KeptSegments(dt)| > 0 ==> Track(TrackName(dt.nameText), KeptSegments(dt)) in tracks
    decreases |decoded|
  {
    if decoded == [] then []
    else
      var dt := decoded[0];
      var segs := KeptSegments(dt);
      FilterMembers(dt.segments, NonEmptySegment);
      (if |segs| > 0 then [Track(TrackName(dt.nameText), segs)] else []) + BuildTracks(decoded[1..])
  }

  /** The track list of a concatenation is the concatenation of the track lists: document order is kept. */
  lemma {:induction false} BuildTracksConcat(a: seq<DecodedTrack>, b: seq<DecodedTrack>)
    ensures BuildTracks(a + b) == BuildTracks(a) + BuildTracks(b)
    decreases |a|
  {
    if a == [] {
      assert a + b == b;
    } else {
      assert (a + b)[0] == a[0];
      assert (a + b)[1..] == a[1..] + b;
      BuildTracksConcat(a[1..], b);
    }
  }

  // ---------------------------------------------------------------------------
  // Points and their times, in document order
  // ---------------------------------------------------------------------------

  function PointTimes(points: seq<TrackPoint>): (ts: seq<Option<Instant>>)
    ensures |ts| == |points|
    ensures forall i :: 0 <= i < |points| ==> ts[i] == points[i].time
  {
    seq(|points|, i requires 0 <= i < |points| => points[i].time)
  }

  /** The times of every point of the segments, segment after segment. */
  function SegmentTimes(segs: seq<TrackSegment>): seq<Option<Instant>>
    decreases |segs|
  {
    if segs == [] then [] else PointTimes(segs[0].points) + SegmentTimes(segs[1..])
  }

  /** The times of every point of the tracks, in document order. */
  function TrackTimes(tracks: seq<Track>): seq<Option<Instant>>
    decreases |tracks|
  {
    if tracks == [] then [] else SegmentTimes(tracks[0].segments) + TrackTimes(tracks[1..])
  }

  /** The times of every decoded point, including those of the segments that are dropped. */
  function DecodedTimes(decoded: seq<DecodedTrack>): seq<Option<Instant>>
    decreases |decoded|
  {
    if decoded == [] then [] else SegmentTimes(decoded[0].segments) + DecodedTimes(decoded[1..])
  }

  /** Dropping empty segments drops no point time. */
  lemma {:induction false} KeptSegmentTimes(segs: seq<TrackSegment>)
    ensures SegmentTimes(Filter(segs, NonEmptySegment)) == SegmentTimes(segs)
    decreases |segs|
  {
    if segs != [] {
      KeptSegmentTimes(segs[1..]);
      if NonEmptySegment(segs[0]) {
        assert Filter(segs, NonEmptySegment) == [segs[0]] + Filter(segs[1..], NonEmptySegment);
      } else {
        assert PointTimes(segs[0].points) == [];
        assert Filter(segs, NonEmptySegment) == Filter(segs[1..], NonEmptySegment);
        assert SegmentTimes(segs) == PointTimes(segs[0].points) + SegmentTimes(segs[1..]);
      }
    }
  }

  /** Dropping empty segments and tracks drops no point time. */
  lemma {:induction false} BuildTracksTimes(decoded: seq<DecodedTrack>)
    ensures TrackTimes(BuildTracks(decoded)) == DecodedTimes(decoded)
    decreases |decoded|
  {
    if decoded != [] {
      var dt := decoded[0];
      BuildTracksTimes(decoded[1..]);
      KeptSegmentTimes(dt.segments);
      if |KeptSegments(dt)| > 0 {
        assert BuildTracks(decoded)[1..] == BuildTracks(decoded[1..]);
      } else {
        assert SegmentTimes(KeptSegments(dt)) == [];
        assert BuildTracks(decoded) == BuildTracks(decoded[1..]);
        assert DecodedTimes(decoded) == SegmentTimes(dt.segments) + DecodedTimes(decoded[1..]);
      }
    }
  }

  // ---------------------------------------------------------------------------
  // The earliest-time fold
  // ---------------------------------------------------------------------------

  /**
   * One step of the fold: a point with a time replaces the running value when
   * there is none yet, or when it is strictly earlier. Every comparison that
   * involves an invalid date is false.
   */
  function EarlierOf(acc: Option<Instant>, t: Option<Instant>): Option<Instant> {
    if t.None? then acc
    else if acc.None? then t
    else if t.value.At? && acc.value.At? && t.value.ms < acc.value.ms then t
    else acc
  }

  function FoldEarliest(acc: Option<Instant>, times: seq<Option<Instant>>): Option<Instant>
    decreases |times|
  {
    if times == [] then acc else FoldEarliest(EarlierOf(acc, times[0]), times[1..])
  }

  /** `earliestTime` after visiting every point, starting from `undefined`. */
  function EarliestTime(times: seq<Option<Instant>>): Option<Instant> {
    FoldEarliest(None, times)
  }

  /** `i` is the first point that has a time at all. */
  ghost predicate FirstTimed(times: seq<Option<Instant>>, i: nat) {
    i < |times| && times[i].Some? && forall j :: 0 <= j < i ==> times[j].None?
  }

  /** `m` is a valid point time and no valid point time is earlier. */
  ghost predicate IsMinimum(times: seq<Option<Instant>>, m: int) {
    && (exists i :: 0 <= i < |times| && times[i] == Some(At(m)))
    && (forall i :: 0 <= i < |times| && times[i].Some? && times[i].value.At? ==> m <= times[i].value.ms)
  }

  /** Once the running value is an invalid date, nothing replaces it. */
  lemma {:induction false} InvalidDateSticks(times: seq<Option<Instant>>)
    ensures FoldEarliest(Some(InvalidDate), times) == Some(InvalidDate)
    decreases |times|
  {
    if times != [] {
      InvalidDateSticks(times[1..]);
    }
  }

  /** From a valid running value `m`, the fold ends at the minimum of `m` and the valid times. */
  lemma {:induction false} FoldFromValid(m: int, times: seq<Option<Instant>>)
    ensures var e := FoldEarliest(Some(At(m)), times);
      && e.Some? && e.value.At? && e.value.ms <= m
      && (e.value.ms == m || exists i :: 0 <= i < |times| && times[i] == Some(At(e.value.ms)))
      && (forall i :: 0 <= i < |times| && times[i].Some? && times[i].value.At? ==> e.value.ms <= times[i].value.ms)
    decreases |times|
  {
    if times != [] {
      var rest := times[1..];
      var acc := EarlierOf(Some(At(m)), times[0]);
      var m' := acc.value.ms;
      FoldFromValid(m', rest);
      var e := FoldEarliest(Some(At(m)), times);
      assert e == FoldEarliest(Some(At(m')), rest);
      forall i | 0 <= i < |times| && times[i].Some? && times[i].value.At?
        ensures e.value.ms <= times[i].value.ms
      {
        if i > 0 {
          assert times[i] == rest[i - 1];
        }
      }
      if e.value.ms != m {
        if e.value.ms == m' {
          assert times[0] == Some(At(m'));
        } else {
          var i :| 0 <= i < |rest| && rest[i] == Some(At(e.value.ms));
          assert times[i + 1] == rest[i];
        }
      }
    }
  }

  /** Before the first timed point the fold stays `undefined`. */
  lemma {:induction false} FoldSkipsUntimed(times: seq<Option<Instant>>, i: nat)
    requires i <= |times| && forall j :: 0 <= j < i ==> times[j].None?
    ensures FoldEarliest(None, times) == FoldEarliest(None, times[i..])
    decreases i
  {
    if i > 0 {
      FoldSkipsUntimed(times[1..], i - 1);
      assert times[1..][i - 1..] == times[i..];
    }
  }

  /**
   * The earliest-time fold: `undefined` exactly when no point has a time; an
   * invalid date when the first timed point's date is invalid (later points
   * never compare below it); otherwise the minimum of the valid point times,
   * invalid dates after the first timed point being skipped.
   */
  lemma EarliestTimeSpec(times: seq<Option<Instant>>)
    ensures EarliestTime(times).None? <==> forall i :: 0 <= i < |times| ==> times[i].None?
    ensures forall i: nat :: FirstTimed(times, i) && times[i] == Some(InvalidDate) ==> EarliestTime(times) == Some(InvalidDate)
    ensures forall i: nat :: FirstTimed(times, i) && times[i].value.At? ==>
      EarliestTime(times).Some? && EarliestTime(times).value.At? && IsMinimum(times, EarliestTime(times).value.ms)
  {
    if forall i :: 0 <= i < |times| ==> times[i].None? {
      FoldSkipsUntimed(times, |times|);
    } else {
      var i :| 0 <= i < |times| && times[i].Some?;
      while exists j :: 0 <= j < i && times[j].Some?
        invariant 0 <= i < |times| && times[i].Some?
        decreases i
      {
        var j :| 0 <= j < i && times[j].Some?;
        i := j;
      }
      assert FirstTimed(times, i);
      FoldSkipsUntimed(times, i);
      var rest := times[i + 1..];
      assert times[i..] == [times[i]] + rest;
      assert EarliestTime(times) == FoldEarliest(times[i], rest);
      forall i': nat | FirstTimed(times, i') ensures i' == i {}
      if times[i] == Some(InvalidDate) {
        InvalidDateSticks(rest);
      } else {
        var m := times[i].value.ms;
        FoldFromValid(m, rest);
        var e := EarliestTime(times).value.ms;
        forall k | 0 <= k < |times| && times[k].Some? && times[k].value.At?
          ensures e <= times[k].value.ms
        {
          if k > i {
            assert times[k] == rest[k - i - 1];
          }
        }
        if e != m {
          var k :| 0 <= k < |rest| && rest[k] == Some(At(e));
          assert times[k + i + 1] == rest[k];
        }
      }
    }
  }

  /**
   * The pure part of `parseGPXFile`: the file's tracks after dropping empty
   * segments and tracks, and `createdAt` folded over their points. Because
   * no point is lost by the filtering, the date is the fold over every
   * decoded point.
   */
  function ParseTree(fileName: string, decoded: seq<DecodedTrack>): (file: GpxFile)
    ensures file.name == fileName && file.tracks == BuildTracks(decoded)
    ensures file.createdAt == EarliestTime(DecodedTimes(decoded))
    ensures file.createdAt.None? <==> forall i :: 0 <= i < |DecodedTimes(decoded)| ==> DecodedTimes(decoded)[i].None?
  {
    var tracks := BuildTracks(decoded);
    BuildTracksTimes(decoded);
    EarliestTimeSpec(DecodedTimes(decoded));
    GpxFile(fileName, tracks, EarliestTime(TrackTimes(tracks)))
  }

  // ---------------------------------------------------------------------------
  // sortGPXFilesByDate
  // ---------------------------------------------------------------------------

  /** A file without an invalid `createdAt`: the comparator is consistent on such files. */
  predicate Comparable(f: GpxFile) {
    f.createdAt != Some(InvalidDate)
  }

  /** The sort key: dated files by their time, all undated files after them. */
  datatype SortKey = Dated(ms: int) | Undated

  function KeyOf(f: GpxFile): SortKey {
    match f.createdAt
    case Some(At(ms)) => Dated(ms)
    case _ => Undated
  }

  predicate KeyLe(a: SortKey, b: SortKey) {
    match (a, b)
    case (Dated(x), Dated(y)) => x <= y
    case (Dated(_), Undated) => true
    case (Undated, Dated(_)) => false
    case (Undated, Undated) => true
  }

  /** The comparator passed to `sort`. */
  function Comparator(a: GpxFile, b: GpxFile): int
    requires Comparable(a) && Comparable(b)
  {
    if a.createdAt.None? && b.createdAt.None? then 0
    else if a.createdAt.None? then 1
    else if b.createdAt.None? then -1
    else a.createdAt.value.ms - b.createdAt.value.ms
  }

  /** The comparator orders files exactly as their keys: it is a total preorder. */
  lemma ComparatorIsKeyOrder(a: GpxFile, b: GpxFile)
    requires Comparable(a) && Comparable(b)
    ensures Comparator(a, b) <= 0 <==> KeyLe(KeyOf(a), KeyOf(b))
    ensures Comparator(a, b) == 0 <==> KeyOf(a) == KeyOf(b)
  {
  }

  ghost predicate Sorted(s: seq<GpxFile>) {
    forall i, j :: 0 <= i < j < |s| ==> KeyLe(KeyOf(s[i]), KeyOf(s[j]))
  }

  /** The files with sort key `k`, in their order in `s`. */
  function WithKey(s: seq<GpxFile>, k: SortKey): (r: seq<GpxFile>)
    decreases |s|
  {
    if s == [] then [] else (if KeyOf(s[0]) == k then [s[0]] else []) + WithKey(s[1..], k)
  }

  /** Inserts `x` before the first element that does not sort before it. */
  function Insert(x: GpxFile, s: seq<GpxFile>): (r: seq<GpxFile>)
    ensures |r| == |s| + 1
    ensures multiset(r) == multiset(s) + multiset{x}
    decreases |s|
  {
    if s == [] || KeyLe(KeyOf(x), KeyOf(s[0])) then [x] + s
    else
      assert s == [s[0]] + s[1..];
      [s[0]] + Insert(x, s[1..])
  }

  lemma {:induction false} InsertSorted(x: GpxFile, s: seq<GpxFile>)
    requires Sorted(s)
    ensures Sorted(Insert(x, s))
    decreases |s|
  {
    if s == [] {
      assert Insert(x, s) == [x];
    } else if KeyLe(KeyOf(x), KeyOf(s[0])) {
      forall i | 0 <= i < |s| ensures KeyLe(KeyOf(x), KeyOf(s[i])) {
        if i > 0 {
          assert KeyLe(KeyOf(s[0]), KeyOf(s[i]));
        }
      }
      SortedCons(x, s);
    } else {
      SortedTail(s);
      InsertSorted(x, s[1..]);
      forall i | 0 <= i < |s[1..]| ensures KeyLe(KeyOf(s[0]), KeyOf(s[1..][i])) {
        assert s[1..][i] == s[i + 1];
      }
      InsertLowerBound(KeyOf(s[0]), x, s[1..]);
      SortedCons(s[0], Insert(x, s[1..]));
    }
  }

  lemma SortedTail(s: seq<GpxFile>)
    requires Sorted(s) && s != []
    ensures Sorted(s[1..])
  {
    forall i, j | 0 <= i < j < |s[1..]| ensures KeyLe(KeyOf(s[1..][i]), KeyOf(s[1..][j])) {
      assert s[1..][i] == s[i + 1] && s[1..][j] == s[j + 1];
    }
  }

  /** A sorted sequence stays sorted under a head that sorts before all of it. */
  lemma SortedCons(h: GpxFile, t: seq<GpxFile>)
    requires Sorted(t)
    requires forall i :: 0 <= i < |t| ==> KeyLe(KeyOf(h), KeyOf(t[i]))
    ensures Sorted([h] + t)
  {
    var r := [h] + t;
    forall i, j | 0 <= i < j < |r| ensures KeyLe(KeyOf(r[i]), KeyOf(r[j])) {
      assert r[j] == t[j - 1];
      if i > 0 {
        assert r[i] == t[i - 1];
      }
    }
  }

  /** A lower bound of `x` and of every element of `s` bounds the insertion too. */
  lemma InsertLowerBound(a: SortKey, x: GpxFile, s: seq<GpxFile>)
    requires KeyLe(a, KeyOf(x))
    requires forall i :: 0 <= i < |s| ==> KeyLe(a, KeyOf(s[i]))
    ensures forall i :: 0 <= i < |Insert(x, s)| ==> KeyLe(a, KeyOf(Insert(x, s)[i]))
  {
    var r := Insert(x, s);
    forall i | 0 <= i < |r| ensures KeyLe(a, KeyOf(r[i])) {
      assert r[i] in multiset(r);
      if r[i] != x {
        assert r[i] in multiset(s);
        var k :| 0 <= k < |s| && s[k] == r[i];
      }
    }
  }

  /**
   * Inserting `x` into a sorted sequence puts it after every file with the
   * same key: among the files with its key it comes first, as it preceded
   * them in the input.
   */
  lemma {:induction false} InsertWithKey(x: GpxFile, s: seq<GpxFile>, k: SortKey)
    requires Sorted(s)
    ensures WithKey(Insert(x, s), k) == (if KeyOf(x) == k then [x] else []) + WithKey(s, k)
    decreases |s|
  {
    if s == [] || KeyLe(KeyOf(x), KeyOf(s[0])) {
      WithKeyCons(x, s, k);
    } else {
      SortedTail(s);
      InsertWithKey(x, s[1..], k);
      InsertWithKeyPast(x, s, k);
    }
  }

  lemma InsertWithKeyPast(x: GpxFile, s: seq<GpxFile>, k: SortKey)
    requires s != [] && !KeyLe(KeyOf(x), KeyOf(s[0]))
    requires WithKey(Insert(x, s[1..]), k) == (if KeyOf(x) == k then [x] else []) + WithKey(s[1..], k)
    ensures WithKey(Insert(x, s), k) == (if KeyOf(x) == k then [x] else []) + WithKey(s, k)
  {
    var t := Insert(x, s[1..]);
    assert Insert(x, s) == [s[0]] + t;
    assert KeyOf(s[0]) != KeyOf(x);
    WithKeyPastHead(s[0], x, t, s[1..], k);
    assert s == [s[0]] + s[1..];
  }

  /** A head whose key differs from `x`'s does not disturb where `x` lands among its key. */
  lemma WithKeyPastHead(h: GpxFile, x: GpxFile, t: seq<GpxFile>, tail: seq<GpxFile>, k: SortKey)
    requires KeyOf(h) != KeyOf(x)
    requires WithKey(t, k) == (if KeyOf(x) == k then [x] else []) + WithKey(tail, k)
    ensures WithKey([h] + t, k) == (if KeyOf(x) == k then [x] else []) + WithKey([h] + tail, k)
  {
    WithKeyCons(h, t, k);
    WithKeyCons(h, tail, k);
    var w := WithKey(tail, k);
    if KeyOf(x) == k {
      assert KeyOf(h) != k;
      assert WithKey(t, k) == [x] + w;
      assert WithKey([h] + t, k) == [] + ([x] + w);
      assert WithKey([h] + tail, k) == [] + w;
    } else if KeyOf(h) == k {
      assert WithKey(t, k) == [] + w;
      assert WithKey([h] + t, k) == [h] + ([] + w);
      assert WithKey([h] + tail, k) == [h] + w;
    } else {
      assert WithKey(t, k) == [] + w;
      assert WithKey([h] + t, k) == [] + ([] + w);
      assert WithKey([h] + tail, k) == [] + w;
    }
  }

  lemma WithKeyCons(h: GpxFile, t: seq<GpxFile>, k: SortKey)
    ensures WithKey([h] + t, k) == (if KeyOf(h) == k then [h] else []) + WithKey(t, k)
  {
    assert ([h] + t)[0] == h;
    assert ([h] + t)[1..] == t;
  }

  /** The stable insertion sort used as the reference for `Array.prototype.sort`. */
  function InsertionSort(s: seq<GpxFile>): (r: seq<GpxFile>)
    ensures multiset(r) == multiset(s)
    ensures Sorted(r)
    ensures forall k :: WithKey(r, k) == WithKey(s, k)
    decreases |s|
  {
    if s == [] then []
    else
      var rest := InsertionSort(s[1..]);
      assert s == [s[0]] + s[1..];
      InsertSorted(s[0], rest);
      forall k ensures WithKey(Insert(s[0], rest), k) == WithKey(s, k) {
        InsertWithKey(s[0], rest, k);
      }
      Insert(s[0], rest)
  }

  /**
   * `sortGPXFilesByDate`: a sorted copy. The result is a permutation of the
   * input; dated files come before undated ones, in non-decreasing date
   * order; and files with equal keys, undated files among them, keep their
   * input order because the sort is stable.
   */
  function SortByDate(files: seq<GpxFile>): (r: seq<GpxFile>)
    requires forall i :: 0 <= i < |files| ==> Comparable(files[i])
    ensures multiset(r) == multiset(files)
    ensures forall i, j :: 0 <= i < j < |r| && r[j].createdAt.Some? ==> r[i].createdAt.Some?
    ensures forall i, j :: 0 <= i < j < |r| && r[i].createdAt.Some? && r[j].createdAt.Some? ==>
      r[i].createdAt.value.At? && r[j].createdAt.value.At? && r[i].createdAt.value.ms <= r[j].createdAt.value.ms
    ensures forall k :: WithKey(r, k) == WithKey(files, k)
  {
    var r := InsertionSort(files);
    forall i | 0 <= i < |r| ensures Comparable(r[i]) {
      assert r[i] in multiset(files);
    }
    r
  }

  /** Sorting an already sorted list changes nothing. */
  lemma {:induction false} SortSortedIsIdentity(files: seq<GpxFile>)
    requires Sorted(files)
    ensures InsertionSort(files) == files
    decreases |files|
  {
    if files != [] {
      SortSortedIsIdentity(files[1..]);
      assert InsertionSort(files[1..]) == files[1..];
    }
  }

  // ---------------------------------------------------------------------------
  // getTotalTrackCount
  // ---------------------------------------------------------------------------

  /** The number of tracks over all files. */
  function TotalTrackCount(files: seq<GpxFile>): nat
    decreases |files|
  {
    if files == [] then 0 else |files[0].tracks| + TotalTrackCount(files[1..])
  }

  /** The count is additive over concatenation. */
  lemma {:induction false} TotalTrackCountConcat(a: seq<GpxFile>, b: seq<GpxFile>)
    ensures TotalTrackCount(a + b) == TotalTrackCount(a) + TotalTrackCount(b)
    decreases |a|
  {
    if a == [] {
      assert a + b == b;
    } else {
      assert (a + b)[0] == a[0];
      assert (a + b)[1..] == a[1..] + b;
      TotalTrackCountConcat(a[1..], b);
    }
  }

  lemma {:induction false} TotalTrackCountInsert(x: GpxFile, s: seq<GpxFile>)
    ensures TotalTrackCount(Insert(x, s)) == |x.tracks| + TotalTrackCount(s)
    decreases |s|
  {
    if s != [] && !KeyLe(KeyOf(x), KeyOf(s[0])) {
      TotalTrackCountInsert(x, s[1..]);
      assert Insert(x, s)[1..] == Insert(x, s[1..]);
    }
  }

  /** Sorting the files does not change the number of tracks. */
  lemma {:induction false} TotalTrackCountOfSort(files: seq<GpxFile>)
    ensures TotalTrackCount(InsertionSort(files)) == TotalTrackCount(files)
    decreases |files|
  {
    if files != [] {
      TotalTrackCountOfSort(files[1..]);
      TotalTrackCountInsert(files[0], InsertionSort(files[1..]));
    }
  }
}
