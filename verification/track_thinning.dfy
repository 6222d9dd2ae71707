/**
 * The track thinning engine and track statistics.
 *
 * A track is two positionally paired sequences: coordinates and timestamp
 * strings (absent entries are `None`). Each thinning policy keeps point 0,
 * a policy-dependent set of interior points, and the last point; a track of
 * at most two points is returned as it is.
 *
 * Geodesic distance and date parsing belong to libraries outside the model
 * and are parameters: `dist(a, b)` is the distance in kilometres and
 * `parse(s)` is `new Date(s).getTime()`, `None` when that is NaN.
 */
module TrackThinning {
  import opened Wrappers
  import opened Geo
  import opened Text

  /** One `timeStamps` entry: a string, or `null` / `undefined`. */
  type Stamp = Option<string>

  datatype ThinningResult = ThinningResult(coordinates: seq<Coord>, timeStamps: seq<Stamp>)

  /** `timeStamps[i]`: `undefined` past the end of the array. */
  function StampAt(ts: seq<Stamp>, i: nat): Stamp {
    if i < |ts| then ts[i] else None
  }

  /** `timeStamps[timeStamps.length - 1]`, which is what every policy appends last. */
  function LastStamp(ts: seq<Stamp>): Stamp {
    if |ts| > 0 then ts[|ts| - 1] else None
  }

  /** A timestamp entry is truthy when it is a non-empty string. */
  predicate Truthy(st: Stamp) {
    st.Some? && st.value != ""
  }

  /**
   * `new Date(t).getTime()` for an entry: `None` for null, undefined, the
   * empty string and every string the parser rejects (NaN).
   */
  function StampTime(parse: string -> Option<int>, st: Stamp): Option<int> {
    if Truthy(st) then parse(st.value) else None
  }

  /** Coordinates and timestamps have the same length. */
  predicate Paired(coords: seq<Coord>, ts: seq<Stamp>) {
    |coords| == |ts|
  }

  // ---------------------------------------------------------------------------
  // Assembling a thinned track from the kept interior indices
  // ---------------------------------------------------------------------------

  /** Strictly increasing indices, all strictly between the first and the last point. */
  predicate Interior(K: seq<nat>, n: nat) {
    && (forall j :: 0 <= j < |K| ==> 1 <= K[j] && K[j] + 1 < n)
    && (forall j, j' :: 0 <= j < j' < |K| ==> K[j] < K[j'])
  }

  /** The first point, the kept interior points in order, and the last point. */
  function Assemble(coords: seq<Coord>, ts: seq<Stamp>, K: seq<nat>): (r: ThinningResult)
    requires |coords| >= 3 && Interior(K, |coords|)
    ensures |r.coordinates| == |r.timeStamps| == |K| + 2
  {
    ThinningResult(
      [coords[0]] + seq(|K|, j requires 0 <= j < |K| => coords[K[j]]) + [coords[|coords| - 1]],
      [StampAt(ts, 0)] + seq(|K|, j requires 0 <= j < |K| => StampAt(ts, K[j])) + [LastStamp(ts)])
  }

  /** Entry `j < |K| + 1` of an assembly is the point that opens gap `j`: point 0, then the kept ones. */
  lemma AssembleAt(coords: seq<Coord>, ts: seq<Stamp>, K: seq<nat>, j: nat)
    requires |coords| >= 3 && Interior(K, |coords|) && j <= |K|
    ensures GapStart(K, 0, j) < |coords|
    ensures Assemble(coords, ts, K).coordinates[j] == coords[GapStart(K, 0, j)]
    ensures Assemble(coords, ts, K).timeStamps[j] == StampAt(ts, GapStart(K, 0, j))
  {
  }

  /** A strictly increasing sequence of indices below `n` has at most `n` elements. */
  lemma {:induction false} IncreasingBound(idx: seq<nat>, n: nat)
    requires forall j :: 0 <= j < |idx| ==> idx[j] < n
    requires forall j, j' :: 0 <= j < j' < |idx| ==> idx[j] < idx[j']
    ensures |idx| <= n
    decreases n
  {
    if |idx| > 0 {
      assert idx[0] < n;
      var init := idx[..|idx| - 1];
      forall j | 0 <= j < |init| ensures init[j] < n - 1 {
        assert idx[j] < idx[|idx| - 1];
      }
      IncreasingBound(init, n - 1);
    }
  }

  /**
   * On a paired track, an assembled result is an order-preserving subsequence of
   * the input that starts at point 0 and ends at point n-1, with each coordinate
   * still next to its own timestamp, and 2 <= |out| <= n.
   */
  lemma AssembleIsSubtrack(coords: seq<Coord>, ts: seq<Stamp>, K: seq<nat>)
    requires |coords| >= 3 && Interior(K, |coords|) && Paired(coords, ts)
    ensures var r := Assemble(coords, ts, K);
            var idx := [0] + K + [|coords| - 1];
            && |r.coordinates| == |r.timeStamps| == |idx|
            && 2 <= |idx| <= |coords|
            && idx[0] == 0 && idx[|idx| - 1] == |coords| - 1
            && (forall j, j' :: 0 <= j < j' < |idx| ==> idx[j] < idx[j'])
            && (forall j :: 0 <= j < |idx| ==>
                  idx[j] < |coords| && r.coordinates[j] == coords[idx[j]] && r.timeStamps[j] == ts[idx[j]])
  {
    var n := |coords|;
    var idx := [0] + K + [n - 1];
    forall j, j' | 0 <= j < j' < |idx| ensures idx[j] < idx[j'] {
      if j' == |idx| - 1 {
        if j > 0 { assert idx[j] == K[j - 1]; }
      } else if j > 0 {
        assert idx[j] == K[j - 1] && idx[j'] == K[j' - 1];
      } else {
        assert idx[j'] == K[j' - 1];
      }
    }
    forall j | 0 <= j < |idx| ensures idx[j] < n {
      if 0 < j < |idx| - 1 { assert idx[j] == K[j - 1]; }
    }
    IncreasingBound(idx, n);
  }

  // ---------------------------------------------------------------------------
  // thinBySequence
  // ---------------------------------------------------------------------------

  /** `Math` helper: dividing `x >= k` by `k` is one more than dividing `x - k`. */
  lemma DivStep(x: int, k: int)
    requires k >= 1 && x >= k
    ensures x / k == (x - k) / k + 1
  {
    var q := (x - k) / k;
    var r := (x - k) % k;
    assert x == (q + 1) * k + r;
    DivUnique(x, k, q + 1, r);
  }

  /** Euclidean division is determined by quotient and remainder. */
  lemma DivUnique(x: int, k: int, q: int, r: int)
    requires k >= 1 && 0 <= r < k && x == q * k + r
    ensures x / k == q
  {
    var q' := x / k;
    var r' := x % k;
    assert x == q' * k + r';
    if q' < q {
      MulDiff(q, q', k);
      MulAtLeast(q - q', k);
    } else if q' > q {
      MulDiff(q', q, k);
      MulAtLeast(q' - q, k);
    }
  }

  lemma MulDiff(a: int, b: int, k: int)
    ensures a * k - b * k == (a - b) * k
  {
  }

  lemma MulAtLeast(d: int, k: int)
    requires d >= 1 && k >= 1
    ensures d * k >= k
  {
  }

  /**
   * The loop `for (i = start; i < n - 1; i += interval)`: the indices it visits.
   * They are exactly start, start + interval, start + 2*interval, ... below n - 1.
   */
  function StrideIndices(n: nat, interval: nat, start: nat): (K: seq<nat>)
    requires interval >= 1 && start >= 1
    ensures |K| == if start + 1 >= n then 0 else (n - 2 - start) / interval + 1
    ensures forall j :: 0 <= j < |K| ==> K[j] == start + j * interval
    ensures forall j :: 0 <= j < |K| ==> K[j] + 1 < n
    decreases n - start
  {
    if start + 1 >= n then []
    else
      var rest := StrideIndices(n, interval, start + interval);
      if start + interval + 1 >= n then
        DivUnique(n - 2 - start, interval, 0, n - 2 - start);
        [start] + rest
      else
        DivStep(n - 2 - start, interval);
        assert forall j :: 1 <= j < |rest| + 1 ==> start + interval + (j - 1) * interval == start + j * interval;
        [start] + rest
  }

  /** The loop started at `interval` visits (n - 2) / interval indices. */
  lemma StrideCount(n: nat, interval: nat)
    requires interval >= 1 && n >= 2
    ensures |StrideIndices(n, interval, interval)| == (n - 2) / interval
  {
    if interval + 1 >= n {
      DivUnique(n - 2, interval, 0, n - 2);
    } else {
      DivStep(n - 2, interval);
    }
  }

  /** Stride indices are interior indices. */
  lemma StrideIndicesInterior(n: nat, interval: nat)
    requires interval >= 1
    ensures Interior(StrideIndices(n, interval, interval), n)
  {
    var K := StrideIndices(n, interval, interval);
    forall j, j' | 0 <= j < j' < |K| ensures K[j] < K[j'] {
      MulDiff(j', j, interval);
      MulAtLeast(j' - j, interval);
    }
  }

  /**
   * `thinBySequence`: keeps every `interval`-th point. The result holds the
   * points 0, interval, 2*interval, ... below n - 1, then point n - 1, so it
   * has (n - 2) / interval + 2 points.
   */
  function ThinBySequence(coords: seq<Coord>, ts: seq<Stamp>, interval: nat): (r: ThinningResult)
    requires interval >= 1
    ensures |coords| <= 2 ==> r == ThinningResult(coords, ts)
    ensures |coords| >= 3 ==> StrideShaped(coords, ts, interval, r)
  {
    if |coords| <= 2 then ThinningResult(coords, ts)
    else
      StrideIndicesInterior(|coords|, interval);
      AssembleStride(coords, ts, interval);
      Assemble(coords, ts, StrideIndices(|coords|, interval, interval))
  }

  /**
   * `r` holds the points 0, interval, 2*interval, ... below n - 1 with their
   * timestamps, then the last point and the last timestamp: (n - 2) / interval + 2
   * entries in all.
   */
  ghost predicate StrideShaped(coords: seq<Coord>, ts: seq<Stamp>, interval: nat, r: ThinningResult)
    requires |coords| >= 3 && interval >= 1
  {
    && |r.coordinates| == |r.timeStamps| == (|coords| - 2) / interval + 2
    && (forall j :: 0 <= j < |r.coordinates| - 1 ==>
          j * interval + 1 < |coords|
          && r.coordinates[j] == coords[j * interval]
          && r.timeStamps[j] == StampAt(ts, j * interval))
    && r.coordinates[|r.coordinates| - 1] == coords[|coords| - 1]
    && r.timeStamps[|r.timeStamps| - 1] == LastStamp(ts)
  }

  lemma AssembleStride(coords: seq<Coord>, ts: seq<Stamp>, interval: nat)
    requires |coords| >= 3 && interval >= 1
    ensures Interior(StrideIndices(|coords|, interval, interval), |coords|)
    ensures StrideShaped(coords, ts, interval, Assemble(coords, ts, StrideIndices(|coords|, interval, interval)))
  {
    var n := |coords|;
    var K := StrideIndices(n, interval, interval);
    StrideIndicesInterior(n, interval);
    StrideCount(n, interval);
    var r := Assemble(coords, ts, K);
    forall j | 0 <= j < |r.coordinates| - 1
      ensures j * interval + 1 < n
      ensures r.coordinates[j] == coords[j * interval]
      ensures r.timeStamps[j] == StampAt(ts, j * interval)
    {
      if j > 0 {
        assert K[j - 1] == interval + (j - 1) * interval;
        MulDiff(j, j - 1, interval);
        assert K[j - 1] == j * interval;
        assert r.coordinates[j] == coords[K[j - 1]];
        assert r.timeStamps[j] == StampAt(ts, K[j - 1]);
      }
    }
  }

  /** A stride of 1 keeps every point: the paired track comes back unchanged. */
  lemma ThinBySequenceOneIsIdentity(coords: seq<Coord>, ts: seq<Stamp>)
    requires Paired(coords, ts)
    ensures ThinBySequence(coords, ts, 1) == ThinningResult(coords, ts)
  {
    var r := ThinBySequence(coords, ts, 1);
    var n := |coords|;
    if n >= 3 {
      assert (n - 2) / 1 == n - 2;
      assert |r.coordinates| == n && |r.timeStamps| == n;
      forall j | 0 <= j < n
        ensures r.coordinates[j] == coords[j] && r.timeStamps[j] == ts[j]
      {
        if j < n - 1 {
          assert j * 1 == j;
        }
      }
      assert r.coordinates == coords;
      assert r.timeStamps == ts;
    }
  }

  /** A stride reaching the last index keeps only the first and the last point. */
  lemma ThinBySequenceCoarse(coords: seq<Coord>, ts: seq<Stamp>, interval: nat)
    requires |coords| >= 3 && interval + 1 >= |coords|
    ensures ThinBySequence(coords, ts, interval)
         == ThinningResult([coords[0], coords[|coords| - 1]], [StampAt(ts, 0), LastStamp(ts)])
  {
    DivUnique(|coords| - 2, interval, 0, |coords| - 2);
    var r := ThinBySequence(coords, ts, interval);
    assert |r.coordinates| == 2;
    assert r.coordinates == [coords[0], coords[|coords| - 1]];
  }

  // ---------------------------------------------------------------------------
  // Greedy selection: the reference definition shared by time and distance
  // ---------------------------------------------------------------------------

  /**
   * `K` is what a greedy scan of the indices l+1 .. hi-1 keeps when `accept(last, i)`
   * decides whether candidate `i` is kept given the most recently kept index
   * `last` (initially `l`): the next kept index is the first accepted one, and no
   * index after the last kept one is accepted.
   */
  ghost predicate GreedyFrom(accept: (nat, nat) -> bool, K: seq<nat>, l: nat, hi: nat)
    decreases |K|
  {
    if K == [] then
      forall m: nat :: l < m < hi ==> !accept(l, m)
    else
      && l < K[0] < hi
      && accept(l, K[0])
      && (forall m: nat :: l < m < K[0] ==> !accept(l, m))
      && GreedyFrom(accept, K[1..], K[0], hi)
  }

  /** The index a candidate in gap `j` of `K` is measured against. */
  function GapStart(K: seq<nat>, l: nat, j: nat): nat
    requires j <= |K|
  {
    if j == 0 then l else K[j - 1]
  }

  /** The first kept index after gap `j` (or `hi` after the last gap). */
  function GapEnd(K: seq<nat>, hi: nat, j: nat): nat
    requires j <= |K|
  {
    if j == |K| then hi else K[j]
  }

  /**
   * What greedy selection means index by index: the kept indices increase and
   * lie strictly between `l` and `hi`; each kept index is accepted against the
   * previously kept one; each skipped index is rejected against the most
   * recently kept one before it.
   */
  lemma {:induction false} GreedyFacts(accept: (nat, nat) -> bool, K: seq<nat>, l: nat, hi: nat)
    requires GreedyFrom(accept, K, l, hi)
    ensures forall j :: 0 <= j < |K| ==> l < K[j] < hi
    ensures forall j, j' :: 0 <= j < j' < |K| ==> K[j] < K[j']
    ensures forall j :: 0 <= j < |K| ==> accept(GapStart(K, l, j), K[j])
    ensures forall j: nat, m: nat :: j <= |K| && GapStart(K, l, j) < m < GapEnd(K, hi, j) ==> !accept(GapStart(K, l, j), m)
    decreases |K|
  {
    if K != [] {
      var T := K[1..];
      GreedyFacts(accept, T, K[0], hi);
      forall j | 0 <= j < |K| ensures l < K[j] < hi {
        if j > 0 { assert K[j] == T[j - 1]; }
      }
      forall j, j' | 0 <= j < j' < |K| ensures K[j] < K[j'] {
        if j > 0 { assert K[j] == T[j - 1]; }
        assert K[j'] == T[j' - 1];
      }
      forall j | 0 <= j < |K| ensures accept(GapStart(K, l, j), K[j]) {
        if j > 0 { assert GapStart(K, l, j) == GapStart(T, K[0], j - 1); assert K[j] == T[j - 1]; }
      }
      forall j: nat, m: nat | j <= |K| && GapStart(K, l, j) < m < GapEnd(K, hi, j)
        ensures !accept(GapStart(K, l, j), m)
      {
        if j > 0 {
          assert GapStart(K, l, j) == GapStart(T, K[0], j - 1);
          assert GapEnd(K, hi, j) == GapEnd(T, hi, j - 1);
        }
      }
    }
  }

  /** Greedy selection is a function of `accept`: at most one `K` satisfies it. */
  lemma {:induction false} GreedyUnique(accept: (nat, nat) -> bool, K1: seq<nat>, K2: seq<nat>, l: nat, hi: nat)
    requires GreedyFrom(accept, K1, l, hi) && GreedyFrom(accept, K2, l, hi)
    ensures K1 == K2
    decreases |K1|
  {
    if K1 != [] && K2 != [] {
      assert K1[0] >= K2[0] by { assert accept(l, K1[0]); }
      assert K2[0] >= K1[0] by { assert accept(l, K2[0]); }
      GreedyUnique(accept, K1[1..], K2[1..], K1[0], hi);
      assert K1 == [K1[0]] + K1[1..];
      assert K2 == [K2[0]] + K2[1..];
    } else if K1 != [] {
      assert false;
    } else if K2 != [] {
      assert false;
    }
  }

  /** Greedily kept indices inside the track are interior indices. */
  lemma GreedyInterior(accept: (nat, nat) -> bool, K: seq<nat>, n: nat)
    requires n >= 1 && GreedyFrom(accept, K, 0, n - 1)
    ensures Interior(K, n)
  {
    GreedyFacts(accept, K, 0, n - 1);
  }

  // ---------------------------------------------------------------------------
  // thinByTime
  // ---------------------------------------------------------------------------

  /**
   * The value of `lastTime`: null (no reference), a Date whose time is NaN,
   * or a valid instant in milliseconds.
   */
  datatype LastTime = NoTime | InvalidTime | ValidTime(ms: int)

  /** The `lastTime` that keeping point `i` sets up (point 0 uses the same rule). */
  function TimeState(ts: seq<Stamp>, parse: string -> Option<int>, i: nat): LastTime {
    var st := StampAt(ts, i);
    if !Truthy(st) then NoTime
    else if parse(st.value).None? then InvalidTime
    else ValidTime(parse(st.value).value)
  }

  /** `intervalMinutes * 60 * 1000`. */
  function IntervalMs(intervalMinutes: real): real {
    intervalMinutes * 60.0 * 1000.0
  }

  /**
   * The `thinByTime` loop from index `i` with `lastTime == last`: the interior
   * indices it keeps. A candidate without a truthy timestamp, or met while
   * `lastTime` is null, is skipped; a NaN difference compares false.
   */
  function TimeKept(ts: seq<Stamp>, parse: string -> Option<int>, intervalMs: real, n: nat, i: nat, last: LastTime): seq<nat>
    decreases n - i
  {
    if i + 1 >= n then []
    else
      var cur := StampAt(ts, i);
      if !Truthy(cur) || last == NoTime then TimeKept(ts, parse, intervalMs, n, i + 1, last)
      else
        var curTime := parse(cur.value);
        if last.ValidTime? && curTime.Some? && (curTime.value - last.ms) as real >= intervalMs then
          [i] + TimeKept(ts, parse, intervalMs, n, i + 1, ValidTime(curTime.value))
        else
          TimeKept(ts, parse, intervalMs, n, i + 1, last)
  }

  /**
   * Candidate `i` is kept after kept point `l` exactly when both have valid
   * times and `i` is at least `intervalMs` later.
   */
  predicate TimeAccept(ts: seq<Stamp>, parse: string -> Option<int>, intervalMs: real, l: nat, i: nat) {
    && StampTime(parse, StampAt(ts, l)).Some?
    && StampTime(parse, StampAt(ts, i)).Some?
    && (StampTime(parse, StampAt(ts, i)).value - StampTime(parse, StampAt(ts, l)).value) as real >= intervalMs
  }

  function TimeAcceptor(ts: seq<Stamp>, parse: string -> Option<int>, intervalMs: real): (nat, nat) -> bool {
    (l: nat, i: nat) => TimeAccept(ts, parse, intervalMs, l, i)
  }

  /** The state-carrying loop keeps exactly the greedy selection under `TimeAccept`. */
  lemma {:induction false} TimeKeptIsGreedy(ts: seq<Stamp>, parse: string -> Option<int>, intervalMs: real, n: nat, i: nat, l: nat)
    requires n >= 1 && l < i
    requires forall m: nat :: l < m < i ==> !TimeAccept(ts, parse, intervalMs, l, m)
    ensures GreedyFrom(TimeAcceptor(ts, parse, intervalMs), TimeKept(ts, parse, intervalMs, n, i, TimeState(ts, parse, l)), l, n - 1)
    decreases n - i
  {
    var accept := TimeAcceptor(ts, parse, intervalMs);
    var last := TimeState(ts, parse, l);
    var K := TimeKept(ts, parse, intervalMs, n, i, last);
    if i + 1 >= n {
      assert forall m: nat :: l < m < n - 1 ==> !accept(l, m);
    } else if TimeAccept(ts, parse, intervalMs, l, i) {
      assert K == [i] + TimeKept(ts, parse, intervalMs, n, i + 1, TimeState(ts, parse, i));
      TimeKeptIsGreedy(ts, parse, intervalMs, n, i + 1, i);
      assert K[1..] == TimeKept(ts, parse, intervalMs, n, i + 1, TimeState(ts, parse, i));
    } else {
      assert K == TimeKept(ts, parse, intervalMs, n, i + 1, last);
      TimeKeptIsGreedy(ts, parse, intervalMs, n, i + 1, l);
    }
  }

  /**
   * `thinByTime`: keeps point 0, then every interior point whose time is at
   * least `intervalMinutes` after the last kept point's time, then the last point.
   */
  function ThinByTime(coords: seq<Coord>, ts: seq<Stamp>, intervalMinutes: real, parse: string -> Option<int>): (r: ThinningResult)
    ensures |coords| <= 2 ==> r == ThinningResult(coords, ts)
    ensures |coords| >= 3 ==>
      exists K :: GreedyFrom(TimeAcceptor(ts, parse, IntervalMs(intervalMinutes)), K, 0, |coords| - 1)
               && Interior(K, |coords|) && r == Assemble(coords, ts, K)
  {
    if |coords| <= 2 then ThinningResult(coords, ts)
    else
      var ms := IntervalMs(intervalMinutes);
      var K := TimeKept(ts, parse, ms, |coords|, 1, TimeState(ts, parse, 0));
      TimeKeptIsGreedy(ts, parse, ms, |coords|, 1, 0);
      GreedyInterior(TimeAcceptor(ts, parse, ms), K, |coords|);
      Assemble(coords, ts, K)
  }

  /**
   * Each stamp strictly between the first and the last has a valid time that is
   * at least `intervalMs` after the valid time of the stamp before it.
   */
  /** The kept points at positions `i` and `i + 1` both have valid times at least `intervalMs` apart. */
  ghost predicate TimeStep(parse: string -> Option<int>, intervalMs: real, stamps: seq<Stamp>, i: nat)
    requires i + 1 < |stamps|
  {
    && StampTime(parse, stamps[i]).Some?
    && StampTime(parse, stamps[i + 1]).Some?
    && (StampTime(parse, stamps[i + 1]).value - StampTime(parse, stamps[i]).value) as real >= intervalMs
  }

  /** Every step between consecutive points before the last one is time-spaced. */
  ghost predicate TimeSpaced(parse: string -> Option<int>, intervalMs: real, stamps: seq<Stamp>) {
    forall i: nat :: i + 2 < |stamps| ==> TimeStep(parse, intervalMs, stamps, i)
  }

  /**
   * Along the output of `thinByTime`, every kept interior point has a valid time
   * that is at least the interval after the previous kept point's valid time.
   */
  lemma ThinByTimeSpacing(coords: seq<Coord>, ts: seq<Stamp>, intervalMinutes: real, parse: string -> Option<int>)
    requires |coords| >= 3
    ensures TimeSpaced(parse, IntervalMs(intervalMinutes), ThinByTime(coords, ts, intervalMinutes, parse).timeStamps)
  {
    var r := ThinByTime(coords, ts, intervalMinutes, parse);
    var ms := IntervalMs(intervalMinutes);
    var accept := TimeAcceptor(ts, parse, ms);
    var K :| GreedyFrom(accept, K, 0, |coords| - 1) && Interior(K, |coords|) && r == Assemble(coords, ts, K);
    GreedyFacts(accept, K, 0, |coords| - 1);
    forall i: nat | i + 2 < |r.timeStamps|
      ensures TimeStep(parse, ms, r.timeStamps, i)
    {
      var l := GapStart(K, 0, i);
      assert accept(l, K[i]);
      assert TimeAccept(ts, parse, ms, l, K[i]);
      AssembleAt(coords, ts, K, i);
      AssembleAt(coords, ts, K, i + 1);
    }
  }

  /** An interior point whose timestamp is null, undefined or empty is never kept. */
  lemma ThinByTimeKeepsOnlyStamped(coords: seq<Coord>, ts: seq<Stamp>, intervalMinutes: real, parse: string -> Option<int>)
    requires |coords| >= 3
    ensures var r := ThinByTime(coords, ts, intervalMinutes, parse);
      forall j :: 1 <= j < |r.timeStamps| - 1 ==> Truthy(r.timeStamps[j])
  {
    var r := ThinByTime(coords, ts, intervalMinutes, parse);
    ThinByTimeSpacing(coords, ts, intervalMinutes, parse);
    var ms := IntervalMs(intervalMinutes);
    forall j | 1 <= j < |r.timeStamps| - 1 ensures Truthy(r.timeStamps[j]) {
      assert TimeStep(parse, ms, r.timeStamps, j - 1);
    }
  }

  /** Without a valid time at point 0, `thinByTime` keeps only the first and the last point. */
  lemma ThinByTimeWithoutReference(coords: seq<Coord>, ts: seq<Stamp>, intervalMinutes: real, parse: string -> Option<int>)
    requires |coords| >= 3 && StampTime(parse, StampAt(ts, 0)).None?
    ensures ThinByTime(coords, ts, intervalMinutes, parse)
         == ThinningResult([coords[0], coords[|coords| - 1]], [StampAt(ts, 0), LastStamp(ts)])
  {
    var r := ThinByTime(coords, ts, intervalMinutes, parse);
    var accept := TimeAcceptor(ts, parse, IntervalMs(intervalMinutes));
    var K :| GreedyFrom(accept, K, 0, |coords| - 1) && Interior(K, |coords|) && r == Assemble(coords, ts, K);
    if K != [] {
      assert false;
    }
  }

  // ---------------------------------------------------------------------------
  // thinByDistance
  // ---------------------------------------------------------------------------

  /**
   * The `thinByDistance` loop from index `i` with `lastPoint == last`: the
   * interior indices it keeps. Each candidate is measured from the last kept
   * point, not along the path.
   */
  function DistanceKept(coords: seq<Coord>, dist: (Coord, Coord) -> real, km: real, i: nat, last: Coord): seq<nat>
    decreases |coords| - i
  {
    if i + 1 >= |coords| then []
    else if dist(last, coords[i]) >= km then [i] + DistanceKept(coords, dist, km, i + 1, coords[i])
    else DistanceKept(coords, dist, km, i + 1, last)
  }

  /** Candidate `i` is kept after kept point `l` exactly when it is at least `km` away from it. */
  predicate DistanceAccept(coords: seq<Coord>, dist: (Coord, Coord) -> real, km: real, l: nat, i: nat) {
    l < |coords| && i < |coords| && dist(coords[l], coords[i]) >= km
  }

  function DistanceAcceptor(coords: seq<Coord>, dist: (Coord, Coord) -> real, km: real): (nat, nat) -> bool {
    (l: nat, i: nat) => DistanceAccept(coords, dist, km, l, i)
  }

  /** The state-carrying loop keeps exactly the greedy selection under `DistanceAccept`. */
  lemma {:induction false} DistanceKeptIsGreedy(coords: seq<Coord>, dist: (Coord, Coord) -> real, km: real, i: nat, l: nat)
    requires |coords| >= 1 && l < i && l < |coords|
    requires forall m: nat :: l < m < i ==> !DistanceAccept(coords, dist, km, l, m)
    ensures GreedyFrom(DistanceAcceptor(coords, dist, km), DistanceKept(coords, dist, km, i, coords[l]), l, |coords| - 1)
    decreases |coords| - i
  {
    var accept := DistanceAcceptor(coords, dist, km);
    var K := DistanceKept(coords, dist, km, i, coords[l]);
    if i + 1 >= |coords| {
      assert forall m: nat :: l < m < |coords| - 1 ==> !accept(l, m);
    } else if DistanceAccept(coords, dist, km, l, i) {
      DistanceKeptIsGreedy(coords, dist, km, i + 1, i);
      assert K[1..] == DistanceKept(coords, dist, km, i + 1, coords[i]);
    } else {
      DistanceKeptIsGreedy(coords, dist, km, i + 1, l);
    }
  }

  /**
   * `thinByDistance`: keeps point 0, then every interior point at least
   * `distanceMeters / 1000` km from the last kept point, then the last point.
   */
  function ThinByDistance(coords: seq<Coord>, ts: seq<Stamp>, distanceMeters: real, dist: (Coord, Coord) -> real): (r: ThinningResult)
    ensures |coords| <= 2 ==> r == ThinningResult(coords, ts)
    ensures |coords| >= 3 ==>
      exists K :: GreedyFrom(DistanceAcceptor(coords, dist, distanceMeters / 1000.0), K, 0, |coords| - 1)
               && Interior(K, |coords|) && r == Assemble(coords, ts, K)
  {
    if |coords| <= 2 then ThinningResult(coords, ts)
    else
      var km := distanceMeters / 1000.0;
      var K := DistanceKept(coords, dist, km, 1, coords[0]);
      DistanceKeptIsGreedy(coords, dist, km, 1, 0);
      GreedyInterior(DistanceAcceptor(coords, dist, km), K, |coords|);
      Assemble(coords, ts, K)
  }

  /** Consecutive coordinates strictly between the first and the last are at least `km` apart. */
  ghost predicate DistanceSpaced(dist: (Coord, Coord) -> real, km: real, cs: seq<Coord>) {
    forall i: nat :: i + 2 < |cs| ==> DistanceStep(dist, km, cs, i)
  }

  /** The points at positions `i` and `i + 1` are at least `km` apart. */
  ghost predicate DistanceStep(dist: (Coord, Coord) -> real, km: real, cs: seq<Coord>, i: nat)
    requires i + 1 < |cs|
  {
    dist(cs[i], cs[i + 1]) >= km
  }

  /**
   * Every index strictly inside a gap of `K` (between two consecutive kept
   * indices, counting 0 before and n-1 after) is closer than `km` to the kept
   * point that opens the gap.
   */
  ghost predicate SkippedAreNear(coords: seq<Coord>, dist: (Coord, Coord) -> real, km: real, K: seq<nat>)
    requires |coords| >= 1 && Interior(K, |coords|)
  {
    forall j: nat, m: nat :: j <= |K| && GapStart(K, 0, j) < m < GapEnd(K, |coords| - 1, j) ==>
      dist(coords[GapStart(K, 0, j)], coords[m]) < km
  }

  /**
   * Along the output of `thinByDistance`, each kept interior point is at least
   * the threshold away from the previous kept point.
   */
  lemma ThinByDistanceSpacing(coords: seq<Coord>, ts: seq<Stamp>, distanceMeters: real, dist: (Coord, Coord) -> real)
    requires |coords| >= 3
    ensures DistanceSpaced(dist, distanceMeters / 1000.0, ThinByDistance(coords, ts, distanceMeters, dist).coordinates)
  {
    var r := ThinByDistance(coords, ts, distanceMeters, dist);
    var km := distanceMeters / 1000.0;
    var accept := DistanceAcceptor(coords, dist, km);
    var K :| GreedyFrom(accept, K, 0, |coords| - 1) && Interior(K, |coords|) && r == Assemble(coords, ts, K);
    GreedyFacts(accept, K, 0, |coords| - 1);
    forall i: nat | i + 2 < |r.coordinates|
      ensures DistanceStep(dist, km, r.coordinates, i)
    {
      var l := GapStart(K, 0, i);
      assert accept(l, K[i]);
      assert DistanceAccept(coords, dist, km, l, K[i]);
      AssembleAt(coords, ts, K, i);
      AssembleAt(coords, ts, K, i + 1);
    }
  }

  /**
   * Every interior point `thinByDistance` skips is closer than the threshold to
   * the most recently kept point before it: distance is measured from the last
   * kept point and never accumulated along the path.
   */
  lemma ThinByDistanceSkipsNear(coords: seq<Coord>, ts: seq<Stamp>, distanceMeters: real, dist: (Coord, Coord) -> real)
    requires |coords| >= 3
    ensures exists K :: Interior(K, |coords|) && ThinByDistance(coords, ts, distanceMeters, dist) == Assemble(coords, ts, K)
                        && SkippedAreNear(coords, dist, distanceMeters / 1000.0, K)
  {
    var r := ThinByDistance(coords, ts, distanceMeters, dist);
    var km := distanceMeters / 1000.0;
    var accept := DistanceAcceptor(coords, dist, km);
    var K :| GreedyFrom(accept, K, 0, |coords| - 1) && Interior(K, |coords|) && r == Assemble(coords, ts, K);
    GreedyFacts(accept, K, 0, |coords| - 1);
    forall j: nat, m: nat | j <= |K| && GapStart(K, 0, j) < m < GapEnd(K, |coords| - 1, j)
      ensures dist(coords[GapStart(K, 0, j)], coords[m]) < km
    {
      assert !accept(GapStart(K, 0, j), m);
    }
  }

  // ---------------------------------------------------------------------------
  // Properties every policy shares
  // ---------------------------------------------------------------------------

  /** The three policies with their parameters. */
  datatype Policy = Stride(interval: nat) | TimeGap(minutes: real) | DistanceGap(meters: real)

  predicate ValidPolicy(p: Policy) {
    p.Stride? ==> p.interval >= 1
  }

  function Thin(p: Policy, coords: seq<Coord>, ts: seq<Stamp>, parse: string -> Option<int>, dist: (Coord, Coord) -> real): ThinningResult
    requires ValidPolicy(p)
  {
    match p
    case Stride(k) => ThinBySequence(coords, ts, k)
    case TimeGap(m) => ThinByTime(coords, ts, m, parse)
    case DistanceGap(d) => ThinByDistance(coords, ts, d, dist)
  }

  /** Every policy produces an assembly of some interior index selection when n >= 3. */
  lemma ThinIsAssembled(p: Policy, coords: seq<Coord>, ts: seq<Stamp>, parse: string -> Option<int>, dist: (Coord, Coord) -> real)
    requires ValidPolicy(p) && |coords| >= 3
    ensures exists K :: Interior(K, |coords|) && Thin(p, coords, ts, parse, dist) == Assemble(coords, ts, K)
  {
    match p
    case Stride(k) =>
      var K := StrideIndices(|coords|, k, k);
      StrideIndicesInterior(|coords|, k);
      assert Thin(p, coords, ts, parse, dist) == Assemble(coords, ts, K);
    case TimeGap(m) =>
      var r := ThinByTime(coords, ts, m, parse);
      var K :| GreedyFrom(TimeAcceptor(ts, parse, IntervalMs(m)), K, 0, |coords| - 1)
               && Interior(K, |coords|) && r == Assemble(coords, ts, K);
    case DistanceGap(d) =>
      var r := ThinByDistance(coords, ts, d, dist);
      var K :| GreedyFrom(DistanceAcceptor(coords, dist, d / 1000.0), K, 0, |coords| - 1)
               && Interior(K, |coords|) && r == Assemble(coords, ts, K);
  }

  /**
   * `r` is a thinning of the paired track: paired itself, 2 <= |r| <= n, its
   * first and last entries are the track's, and it is an order-preserving
   * subsequence with coordinates and timestamps still paired.
   */
  ghost predicate IsSubtrack(coords: seq<Coord>, ts: seq<Stamp>, r: ThinningResult)
    requires |coords| >= 3 && Paired(coords, ts)
  {
    && |r.coordinates| == |r.timeStamps|
    && 2 <= |r.coordinates| <= |coords|
    && r.coordinates[0] == coords[0] && r.timeStamps[0] == ts[0]
    && r.coordinates[|r.coordinates| - 1] == coords[|coords| - 1]
    && r.timeStamps[|r.timeStamps| - 1] == ts[|ts| - 1]
    && exists idx: seq<nat> ::
         && |idx| == |r.coordinates|
         && (forall j, j' :: 0 <= j < j' < |idx| ==> idx[j] < idx[j'])
         && (forall j :: 0 <= j < |idx| ==>
               idx[j] < |coords| && r.coordinates[j] == coords[idx[j]] && r.timeStamps[j] == ts[idx[j]])
  }

  /** The whole track is a thinning of itself. */
  lemma WholeIsSubtrack(coords: seq<Coord>, ts: seq<Stamp>)
    requires |coords| >= 3 && Paired(coords, ts)
    ensures IsSubtrack(coords, ts, ThinningResult(coords, ts))
  {
    var idx: seq<nat> := seq(|coords|, j requires 0 <= j => j);
    assert forall j :: 0 <= j < |idx| ==> idx[j] == j;
  }

  /**
   * For every policy: a track of at most two points comes back unchanged; a
   * longer paired track comes back as a paired, order-preserving subsequence
   * that keeps its first and last points, with 2 <= |out| <= n.
   */
  lemma ThinKeepsEndpointsAndOrder(p: Policy, coords: seq<Coord>, ts: seq<Stamp>, parse: string -> Option<int>, dist: (Coord, Coord) -> real)
    requires ValidPolicy(p)
    ensures |coords| <= 2 ==> Thin(p, coords, ts, parse, dist) == ThinningResult(coords, ts)
    ensures |coords| >= 3 && Paired(coords, ts) ==> IsSubtrack(coords, ts, Thin(p, coords, ts, parse, dist))
  {
    if |coords| >= 3 && Paired(coords, ts) {
      ThinIsAssembled(p, coords, ts, parse, dist);
      var K :| Interior(K, |coords|) && Thin(p, coords, ts, parse, dist) == Assemble(coords, ts, K);
      AssembleIsSubtrack(coords, ts, K);
      var idx := [0] + K + [|coords| - 1];
      assert |idx| == |K| + 2;
    }
  }

  // ---------------------------------------------------------------------------
  // calculateTrackStats
  // ---------------------------------------------------------------------------

  datatype TrackStats = TrackStats(
    totalPoints: nat,
    totalDistance: real,              // kilometres
    averageTimeInterval: Option<real>, // milliseconds
    startTime: Option<int>,
    endTime: Option<int>,
    duration: Option<int>)            // milliseconds

  /** The length of the polyline: the sum of the distances between consecutive points. */
  function PathLength(coords: seq<Coord>, dist: (Coord, Coord) -> real): real
    decreases |coords|
  {
    if |coords| <= 1 then 0.0 else dist(coords[0], coords[1]) + PathLength(coords[1..], dist)
  }

  /** The entries of `ts` that are present and parse to a valid date, in input order. */
  function ValidTimes(ts: seq<Stamp>, parse: string -> Option<int>): (v: seq<int>)
    ensures |v| <= |ts|
    decreases |ts|
  {
    if ts == [] then []
    else if StampTime(parse, ts[0]).Some? then [StampTime(parse, ts[0]).value] + ValidTimes(ts[1..], parse)
    else ValidTimes(ts[1..], parse)
  }

  ghost predicate IsFirstValid(ts: seq<Stamp>, parse: string -> Option<int>, i: nat) {
    i < |ts| && StampTime(parse, ts[i]).Some?
    && forall j :: 0 <= j < i ==> StampTime(parse, ts[j]).None?
  }

  ghost predicate IsLastValid(ts: seq<Stamp>, parse: string -> Option<int>, i: nat) {
    i < |ts| && StampTime(parse, ts[i]).Some?
    && forall j :: i < j < |ts| ==> StampTime(parse, ts[j]).None?
  }

  /** The valid times are empty exactly when no entry parses. */
  lemma {:induction false} ValidTimesEmpty(ts: seq<Stamp>, parse: string -> Option<int>)
    ensures ValidTimes(ts, parse) == [] <==> forall i :: 0 <= i < |ts| ==> StampTime(parse, ts[i]).None?
    decreases |ts|
  {
    if ts != [] {
      ValidTimesEmpty(ts[1..], parse);
      assert forall i :: 1 <= i < |ts| ==> ts[i] == ts[1..][i - 1];
    }
  }

  /** The first valid time is the time of the first entry that parses (no sorting). */
  lemma {:induction false} ValidTimesFirst(ts: seq<Stamp>, parse: string -> Option<int>, i: nat)
    requires IsFirstValid(ts, parse, i)
    ensures |ValidTimes(ts, parse)| >= 1 && ValidTimes(ts, parse)[0] == StampTime(parse, ts[i]).value
    decreases |ts|
  {
    if i > 0 {
      assert StampTime(parse, ts[0]).None?;
      assert IsFirstValid(ts[1..], parse, i - 1) by {
        assert forall j :: 0 <= j < i - 1 ==> ts[1..][j] == ts[j + 1];
      }
      ValidTimesFirst(ts[1..], parse, i - 1);
    }
  }

  /** The last valid time is the time of the last entry that parses. */
  lemma {:induction false} ValidTimesLast(ts: seq<Stamp>, parse: string -> Option<int>, i: nat)
    requires IsLastValid(ts, parse, i)
    ensures |ValidTimes(ts, parse)| >= 1
    ensures ValidTimes(ts, parse)[|ValidTimes(ts, parse)| - 1] == StampTime(parse, ts[i]).value
    decreases |ts|
  {
    var rest := ts[1..];
    if i > 0 {
      assert IsLastValid(rest, parse, i - 1) by {
        assert forall j :: i - 1 < j < |rest| ==> rest[j] == ts[j + 1];
      }
      ValidTimesLast(rest, parse, i - 1);
    } else {
      assert ValidTimes(rest, parse) == [] by {
        ValidTimesEmpty(rest, parse);
        assert forall j :: 0 <= j < |rest| ==> rest[j] == ts[j + 1];
      }
    }
  }

  /** The first valid time belongs to the first parseable stamp, whichever index that is. */
  lemma ValidTimesFirstAll(ts: seq<Stamp>, parse: string -> Option<int>)
    ensures forall i: nat :: IsFirstValid(ts, parse, i) ==>
      |ValidTimes(ts, parse)| >= 1 && ValidTimes(ts, parse)[0] == StampTime(parse, ts[i]).value
  {
    forall i: nat | IsFirstValid(ts, parse, i)
      ensures |ValidTimes(ts, parse)| >= 1 && ValidTimes(ts, parse)[0] == StampTime(parse, ts[i]).value
    {
      ValidTimesFirst(ts, parse, i);
    }
  }

  /** The last valid time belongs to the last parseable stamp, whichever index that is. */
  lemma ValidTimesLastAll(ts: seq<Stamp>, parse: string -> Option<int>)
    ensures forall i: nat :: IsLastValid(ts, parse, i) ==>
      |ValidTimes(ts, parse)| >= 1 && ValidTimes(ts, parse)[|ValidTimes(ts, parse)| - 1] == StampTime(parse, ts[i]).value
  {
    forall i: nat | IsLastValid(ts, parse, i)
      ensures |ValidTimes(ts, parse)| >= 1
      ensures ValidTimes(ts, parse)[|ValidTimes(ts, parse)| - 1] == StampTime(parse, ts[i]).value
    {
      ValidTimesLast(ts, parse, i);
    }
  }

  /** `calculateTrackStats`. */
  function CalculateTrackStats(coords: seq<Coord>, ts: seq<Stamp>, parse: string -> Option<int>, dist: (Coord, Coord) -> real): (s: TrackStats)
    ensures s.totalPoints == |coords|
    ensures |coords| <= 1 ==> s.totalDistance == 0.0
    ensures |coords| > 1 ==> s.totalDistance == PathLength(coords, dist)
    ensures s.startTime.None? <==> forall i :: 0 <= i < |ts| ==> StampTime(parse, ts[i]).None?
    ensures s.startTime.None? ==> s.endTime.None? && s.duration.None? && s.averageTimeInterval.None?
    ensures forall i: nat :: IsFirstValid(ts, parse, i) ==> s.startTime == StampTime(parse, ts[i])
    ensures forall i: nat :: IsLastValid(ts, parse, i) ==> s.endTime == StampTime(parse, ts[i])
    ensures s.startTime.Some? ==> s.endTime.Some? && s.duration == Some(s.endTime.value - s.startTime.value)
    ensures |ValidTimes(ts, parse)| == 1 ==>
      s.startTime == s.endTime && s.duration == Some(0) && s.averageTimeInterval.None?
    ensures |ValidTimes(ts, parse)| > 1 ==>
      s.duration.Some? && s.averageTimeInterval == Some(s.duration.value as real / (|ValidTimes(ts, parse)| - 1) as real)
  {
    ValidTimesEmpty(ts, parse);
    ValidTimesFirstAll(ts, parse);
    ValidTimesLastAll(ts, parse);
    var totalDistance := if |coords| > 1 then PathLength(coords, dist) else 0.0;
    StatsOfTimes(|coords|, totalDistance, ValidTimes(ts, parse))
  }

  /** The statistics once the point count, the distance and the valid times are known. */
  function StatsOfTimes(n: nat, totalDistance: real, v: seq<int>): (s: TrackStats)
    ensures s.totalPoints == n && s.totalDistance == totalDistance
    ensures s.startTime.None? <==> v == []
    ensures s.startTime.None? ==> s.endTime.None? && s.duration.None? && s.averageTimeInterval.None?
    ensures v != [] ==> s.startTime == Some(v[0]) && s.endTime == Some(v[|v| - 1])
    ensures s.startTime.Some? ==> s.endTime.Some? && s.duration == Some(s.endTime.value - s.startTime.value)
    ensures |v| == 1 ==> s.duration == Some(0) && s.averageTimeInterval.None?
    ensures |v| > 1 ==> s.duration.Some? && s.averageTimeInterval == Some(s.duration.value as real / (|v| - 1) as real)
  {
    if |v| > 1 then
      var start := v[0];
      var end := v[|v| - 1];
      TrackStats(n, totalDistance, Some((end - start) as real / (|v| - 1) as real), Some(start), Some(end), Some(end - start))
    else if |v| == 1 then
      TrackStats(n, totalDistance, None, Some(v[0]), Some(v[0]), Some(0))
    else
      TrackStats(n, totalDistance, None, None, None, None)
  }

  // ---------------------------------------------------------------------------
  // Display formatters
  // ---------------------------------------------------------------------------

  /** `Math.round`: the nearest integer, halves rounded up (towards +infinity). */
  function JsRound(x: real): (r: int)
    ensures r as real - 0.5 <= x < r as real + 0.5
  {
    (x + 0.5).Floor
  }

  /** Any integer within half of `x` in the same rounding sense is `Math.round(x)`. */
  lemma JsRoundUnique(x: real, k: int)
    requires k as real - 0.5 <= x < k as real + 0.5
    ensures JsRound(x) == k
  {
  }

  /** The JavaScript `%` operator on integers: the remainder takes the sign of the dividend. */
  function JsRem(a: int, b: int): (r: int)
    requires b > 0
    ensures a >= 0 ==> 0 <= r < b
    ensures a < 0 ==> -b < r <= 0
    ensures (a - r) % b == 0
  {
    if a >= 0 then
      RemOfNonNegative(a, b);
      a % b
    else
      RemOfNonNegative(-a, b);
      -((-a) % b)
  }

  /** For `a >= 0` the Euclidean remainder is in `[0, b)` and `a` minus it is a multiple of `b`. */
  lemma RemOfNonNegative(a: int, b: int)
    requires a >= 0 && b > 0
    ensures 0 <= a % b < b
    ensures (a - a % b) % b == 0
    ensures (-(a - a % b)) % b == 0
  {
    var q := a / b;
    assert a - a % b == q * b;
    ModOfMultiple(q, b);
    assert -(a - a % b) == (-q) * b;
    ModOfMultiple(-q, b);
  }

  /** A multiple of `k` leaves no remainder. */
  lemma ModOfMultiple(q: int, k: int)
    requires k >= 1
    ensures (q * k) % k == 0
  {
    DivUnique(q * k, k, q, 0);
  }

  /** Which unit `formatTimeInterval` shows, with the rounded amount. */
  datatype IntervalDisplay = UnknownInterval | Seconds(s: int) | Minutes(m: int) | Hours(h: int)

  /**
   * The unit and amount `formatTimeInterval` picks: whole seconds rounded from
   * the milliseconds below a minute, minutes rounded from those seconds below
   * an hour, otherwise hours rounded from those seconds.
   */
  function IntervalParts(intervalMs: Option<real>): (d: IntervalDisplay)
    ensures intervalMs.None? <==> d.UnknownInterval?
    ensures intervalMs.Some? ==>
      var x := intervalMs.value / 1000.0;
      && (d.Seconds? <==> x < 59.5)
      && (d.Minutes? <==> 59.5 <= x < 3599.5)
      && (d.Hours? <==> 3599.5 <= x)
      && (d.Seconds? ==> d.s as real - 0.5 <= x < d.s as real + 0.5)
      && (d.Minutes? ==> 1 <= d.m <= 60 && 60.0 * d.m as real - 30.5 <= x < 60.0 * d.m as real + 30.5)
      && (d.Hours? ==> 1 <= d.h && 3600.0 * d.h as real - 1800.5 <= x < 3600.0 * d.h as real + 1800.5)
  {
    if intervalMs.None? then UnknownInterval
    else
      var seconds := JsRound(intervalMs.value / 1000.0);
      if seconds < 60 then Seconds(seconds)
      else if seconds < 3600 then Minutes(JsRound(seconds as real / 60.0))
      else Hours(JsRound(seconds as real / 3600.0))
  }

  const Unknown: string := "不明"

  /** `formatTimeInterval`: the rounded amount followed by its unit, or '不明' for null. */
  function FormatTimeInterval(intervalMs: Option<real>): (text: string)
    ensures intervalMs.None? <==> text == Unknown
    ensures match IntervalParts(intervalMs)
      case UnknownInterval => true
      case Seconds(n) => text == IntToString(n) + "秒"
      case Minutes(n) => text == IntToString(n) + "分"
      case Hours(n) => text == IntToString(n) + "時間"
  {
    match IntervalParts(intervalMs)
    case UnknownInterval => Unknown
    case Seconds(n) =>
      var text := IntToString(n) + "秒";
      assert text[|text| - 1] != Unknown[|Unknown| - 1];
      text
    case Minutes(n) =>
      var text := IntToString(n) + "分";
      assert text[|text| - 1] != Unknown[|Unknown| - 1];
      text
    case Hours(n) => IntToString(n) + "時間"
  }

  /** Which units `formatDuration` shows: the first non-zero unit and the one after it. */
  datatype DurationDisplay =
    | UnknownDuration
    | HoursMinutes(hours: int, minutes: int)
    | MinutesSeconds(minutes: int, seconds: int)
    | SecondsOnly(seconds: int)

  /**
   * The split `formatDuration` makes: whole seconds (rounded down), then hours,
   * the minutes left after the hours, and the seconds left after the minutes,
   * using JavaScript's sign-of-dividend remainder.
   */
  function DurationParts(durationMs: Option<int>): (d: DurationDisplay)
    ensures durationMs.None? <==> d.UnknownDuration?
    ensures durationMs.Some? && durationMs.value >= 0 ==>
      var t := durationMs.value / 1000;
      && (d.HoursMinutes? <==> t >= 3600)
      && (d.MinutesSeconds? <==> 60 <= t < 3600)
      && (d.SecondsOnly? <==> t < 60)
      && (d.HoursMinutes? ==> 1 <= d.hours && 0 <= d.minutes < 60
                              && 3600 * d.hours + 60 * d.minutes <= t < 3600 * d.hours + 60 * d.minutes + 60)
      && (d.MinutesSeconds? ==> 1 <= d.minutes < 60 && 0 <= d.seconds < 60 && t == 60 * d.minutes + d.seconds)
      && (d.SecondsOnly? ==> d.seconds == t)
    ensures durationMs.Some? && durationMs.value < 0 ==>
      var t := durationMs.value / 1000;
      d.SecondsOnly? && -60 < d.seconds <= 0 && (t - d.seconds) % 60 == 0
  {
    if durationMs.None? then UnknownDuration
    else
      var totalSeconds := durationMs.value / 1000;
      var hours := totalSeconds / 3600;
      var minutes := JsRem(totalSeconds, 3600) / 60;
      var seconds := JsRem(totalSeconds, 60);
      DurationSplit(totalSeconds);
      if hours > 0 then HoursMinutes(hours, minutes)
      else if minutes > 0 then MinutesSeconds(minutes, seconds)
      else SecondsOnly(seconds)
  }

  /** For a non-negative number of seconds, hours, minutes and seconds rebuild it. */
  lemma DurationSplit(t: int)
    ensures t >= 0 ==>
      && t == 3600 * (t / 3600) + 60 * (JsRem(t, 3600) / 60) + JsRem(t, 60)
      && 0 <= JsRem(t, 3600) / 60 < 60
    ensures t < 0 ==> t / 3600 < 0 && JsRem(t, 3600) / 60 <= 0
  {
    if t >= 0 {
      assert t == 3600 * (t / 3600) + t % 3600;
      var r := t % 3600;
      assert r == 60 * (r / 60) + r % 60;
      assert t % 60 == r % 60 by {
        assert t == 60 * (60 * (t / 3600) + r / 60) + r % 60;
      }
    }
  }

  /** `formatDuration`: hours and minutes, minutes and seconds, or seconds alone, or '不明' for null. */
  function FormatDuration(durationMs: Option<int>): (text: string)
    ensures durationMs.None? <==> text == Unknown
    ensures match DurationParts(durationMs)
      case UnknownDuration => true
      case HoursMinutes(h, m) => text == IntToString(h) + "時間" + IntToString(m) + "分"
      case MinutesSeconds(m, sec) => text == IntToString(m) + "分" + IntToString(sec) + "秒"
      case SecondsOnly(sec) => text == IntToString(sec) + "秒"
  {
    match DurationParts(durationMs)
    case UnknownDuration => Unknown
    case HoursMinutes(h, m) => IntToString(h) + "時間" + IntToString(m) + "分"
    case MinutesSeconds(m, sec) => IntToString(m) + "分" + IntToString(sec) + "秒"
    case SecondsOnly(sec) =>
      var text := IntToString(sec) + "秒";
      assert text[|text| - 1] != Unknown[|Unknown| - 1];
      text
  }
}
