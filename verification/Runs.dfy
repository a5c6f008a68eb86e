/** Splitting a state sensor's history into unbroken stretches. */
module Runs {
  import opened Basics

  /** A stretch as reported. Instants carry the offset of the reading they come from. */
  datatype Run = Run(startsAt: int, startsOffset: int, endsAt: int, endsOffset: int,
                     duration: int, samples: nat, asserted: bool, truncated: bool)

  // ----- what a stretch is -----

  /** The recorder was away between readings `k - 1` and `k`. */
  predicate GapAt(obs: seq<Obs>, breakAt: int, k: int)
    requires 0 < k < |obs|
  {
    obs[k].at - obs[k - 1].at > breakAt
  }

  /** A stretch ends between readings `k - 1` and `k`. */
  predicate CutAt(obs: seq<Obs>, breakAt: int, k: int)
    requires 0 < k < |obs|
  {
    GapAt(obs, breakAt, k) || obs[k].value != obs[k - 1].value
  }

  /** Readings [lo, hi) form one maximal stretch: nothing cuts it, and it cannot grow either way. */
  ghost predicate Maximal(obs: seq<Obs>, breakAt: int, lo: int, hi: int) {
    && 0 <= lo < hi <= |obs|
    && (forall k :: lo < k < hi ==> !CutAt(obs, breakAt, k))
    && (lo > 0 ==> CutAt(obs, breakAt, lo))
    && (hi < |obs| ==> CutAt(obs, breakAt, hi))
  }

  /** An edge that was not an observed transition: the end of the window, or a hole in the recording. */
  predicate OpenEdge(obs: seq<Obs>, breakAt: int, k: int)
    requires 0 <= k <= |obs|
  {
    k == 0 || k == |obs| || GapAt(obs, breakAt, k)
  }

  function Describe(obs: seq<Obs>, breakAt: int, lo: int, hi: int): Run
    requires 0 <= lo < hi <= |obs|
  {
    var first, last := obs[lo], obs[hi - 1];
    Run(first.at, first.offset, last.at, last.offset, last.at - first.at, hi - lo, first.value == 1.0,
        OpenEdge(obs, breakAt, lo) || OpenEdge(obs, breakAt, hi))
  }

  /** The stretches `bounds[n]..bounds[n+1]`, end to end over the first `upto` readings. */
  ghost predicate Segments(obs: seq<Obs>, breakAt: int, bounds: seq<int>, upto: int) {
    && |bounds| > 0 && bounds[0] == 0 && bounds[|bounds| - 1] == upto <= |obs|
    && (forall n :: 0 <= n < |bounds| - 1 ==> Maximal(obs, breakAt, bounds[n], bounds[n + 1]))
  }

  ghost predicate IsSegmentation(obs: seq<Obs>, breakAt: int, runs: seq<Run>, bounds: seq<int>, upto: int) {
    && Segments(obs, breakAt, bounds, upto)
    && |runs| == |bounds| - 1
    && (forall n :: 0 <= n < |runs| ==> runs[n] == Describe(obs, breakAt, bounds[n], bounds[n + 1]))
  }

  // ----- what a report says of the readings -----

  /** The recorder was at work between readings `k - 1` and `k`, and the state changed. */
  ghost predicate TransitionAt(obs: seq<Obs>, breakAt: int, k: int) {
    0 < k < |obs| && obs[k].value != obs[k - 1].value && obs[k].at - obs[k - 1].at <= breakAt
  }

  /** A run over readings [lo, hi): one value, no hole inside, and it ends where the value or the recording does; it is
      reported whole if and only if both its edges were observed transitions. */
  ghost predicate Reports(obs: seq<Obs>, breakAt: int, run: Run, lo: int, hi: int) {
    && 0 <= lo < hi <= |obs|
    && (forall k :: lo < k < hi ==> obs[k].value == obs[k - 1].value && obs[k].at - obs[k - 1].at <= breakAt)
    && (lo > 0 ==> obs[lo].value != obs[lo - 1].value || obs[lo].at - obs[lo - 1].at > breakAt)
    && (hi < |obs| ==> obs[hi].value != obs[hi - 1].value || obs[hi].at - obs[hi - 1].at > breakAt)
    && run.startsAt == obs[lo].at && run.startsOffset == obs[lo].offset
    && run.endsAt == obs[hi - 1].at && run.endsOffset == obs[hi - 1].offset
    && run.duration == obs[hi - 1].at - obs[lo].at && run.samples == hi - lo
    && (run.asserted <==> obs[lo].value == 1.0)
    && (!run.truncated <==> TransitionAt(obs, breakAt, lo) && TransitionAt(obs, breakAt, hi))
  }

  /** The runs cover the readings end to end, each saying of its own exactly what is there. */
  ghost predicate ReportsAll(obs: seq<Obs>, breakAt: int, runs: seq<Run>, bounds: seq<int>) {
    && |bounds| == |runs| + 1 && bounds[0] == 0 && bounds[|runs|] == |obs|
    && forall n :: 0 <= n < |runs| ==> Reports(obs, breakAt, runs[n], bounds[n], bounds[n + 1])
  }

  lemma DescriptionReports(obs: seq<Obs>, breakAt: int, lo: int, hi: int)
    requires Maximal(obs, breakAt, lo, hi)
    ensures Reports(obs, breakAt, Describe(obs, breakAt, lo, hi), lo, hi)
  {
    forall k | lo < k < hi ensures obs[k].value == obs[k - 1].value && obs[k].at - obs[k - 1].at <= breakAt {
      assert !CutAt(obs, breakAt, k);
    }
    assert lo > 0 ==> CutAt(obs, breakAt, lo);
    assert hi < |obs| ==> CutAt(obs, breakAt, hi);
    assert OpenEdge(obs, breakAt, lo) <==> !TransitionAt(obs, breakAt, lo);
    assert OpenEdge(obs, breakAt, hi) <==> !TransitionAt(obs, breakAt, hi);
  }

  lemma SegmentationReports(obs: seq<Obs>, breakAt: int, runs: seq<Run>, bounds: seq<int>)
    requires IsSegmentation(obs, breakAt, runs, bounds, |obs|)
    ensures ReportsAll(obs, breakAt, runs, bounds)
  {
    forall n | 0 <= n < |runs| ensures Reports(obs, breakAt, runs[n], bounds[n], bounds[n + 1]) {
      assert Maximal(obs, breakAt, bounds[n], bounds[n + 1]);
      DescriptionReports(obs, breakAt, bounds[n], bounds[n + 1]);
    }
  }

  // ----- there is exactly one -----

  lemma MaximalIsUnique(obs: seq<Obs>, breakAt: int, a: int, b: int, c: int, d: int)
    requires Maximal(obs, breakAt, a, b) && Maximal(obs, breakAt, c, d)
    requires a < d && c < b
    ensures a == c && b == d
  {
  }

  lemma {:induction false} SameBounds(obs: seq<Obs>, breakAt: int, x: seq<int>, y: seq<int>, n: nat)
    requires Segments(obs, breakAt, x, |obs|) && Segments(obs, breakAt, y, |obs|)
    requires n < |x|
    ensures n < |y| && x[n] == y[n]
  {
    if n > 0 {
      SameBounds(obs, breakAt, x, y, n - 1);
      assert Maximal(obs, breakAt, x[n - 1], x[n - 1 + 1]);
      assert Maximal(obs, breakAt, y[n - 1], y[n - 1 + 1]);
      MaximalIsUnique(obs, breakAt, x[n - 1], x[n], y[n - 1], y[n]);
    }
  }

  /** A history has one segmentation into maximal stretches, hence one list of runs. */
  lemma SegmentationIsUnique(obs: seq<Obs>, breakAt: int, runs: seq<Run>, other: seq<Run>, x: seq<int>, y: seq<int>)
    requires IsSegmentation(obs, breakAt, runs, x, |obs|) && IsSegmentation(obs, breakAt, other, y, |obs|)
    ensures x == y && runs == other
  {
    forall n | 0 <= n < |x| ensures n < |y| && x[n] == y[n] {
      SameBounds(obs, breakAt, x, y, n);
    }
    SameBounds(obs, breakAt, y, x, |y| - 1);
    assert |x| == |y|;
    assert x == y;
    forall n | 0 <= n < |runs| ensures runs[n] == other[n] {
      assert runs[n] == Describe(obs, breakAt, x[n], x[n + 1]);
      assert other[n] == Describe(obs, breakAt, y[n], y[n + 1]);
    }
  }

  /** Runs account for every reading once. */
  lemma {:induction false} RunsCoverEveryReading(obs: seq<Obs>, breakAt: int, runs: seq<Run>, bounds: seq<int>, upto: int)
    requires IsSegmentation(obs, breakAt, runs, bounds, upto)
    ensures Samples(runs) == upto
  {
    if runs != [] {
      var n := |runs| - 1;
      assert Maximal(obs, breakAt, bounds[n], bounds[n + 1]);
      assert IsSegmentation(obs, breakAt, runs[..n], bounds[..n + 1], bounds[n]);
      RunsCoverEveryReading(obs, breakAt, runs[..n], bounds[..n + 1], bounds[n]);
    }
  }

  function Samples(runs: seq<Run>): nat {
    if runs == [] then 0 else Samples(runs[..|runs| - 1]) + runs[|runs| - 1].samples
  }

  // ----- looking through a narrower window -----

  /** Every reading lies in exactly one maximal stretch. */
  lemma {:induction false} StretchOf(obs: seq<Obs>, breakAt: int, bounds: seq<int>, k: int, top: nat) returns (n: nat)
    requires Segments(obs, breakAt, bounds, |obs|) && top < |bounds| && 0 <= k < bounds[top]
    ensures n < top && bounds[n] <= k < bounds[n + 1]
  {
    assert Maximal(obs, breakAt, bounds[top - 1], bounds[top - 1 + 1]);
    if k < bounds[top - 1] {
      n := StretchOf(obs, breakAt, bounds, k, top - 1);
    } else {
      n := top - 1;
    }
  }

  lemma SliceCuts(obs: seq<Obs>, breakAt: int, lo: int, hi: int, k: int)
    requires 0 <= lo <= hi <= |obs| && 0 < k < hi - lo
    ensures CutAt(obs[lo..hi], breakAt, k) <==> CutAt(obs, breakAt, lo + k)
    ensures GapAt(obs[lo..hi], breakAt, k) <==> GapAt(obs, breakAt, lo + k)
  {
  }

  /** A stretch of the slice [lo, hi) lies in the stretch of the whole that holds its first reading;
      if neither edge is open, the two coincide. */
  lemma StretchInSlice(obs: seq<Obs>, breakAt: int, lo: int, hi: int, a: int, b: int, c: int, d: int)
    requires 0 <= lo <= hi <= |obs| && Maximal(obs[lo..hi], breakAt, a, b)
    requires Maximal(obs, breakAt, c, d) && c <= lo + a < d
    ensures c <= lo + a && lo + b <= d
    ensures a > 0 ==> c == lo + a
    ensures b < hi - lo ==> d == lo + b
  {
    forall k | 0 < k < hi - lo
      ensures CutAt(obs[lo..hi], breakAt, k) <==> CutAt(obs, breakAt, lo + k)
    {
      SliceCuts(obs, breakAt, lo, hi, k);
    }
    assert 0 < d - lo < hi - lo ==> (CutAt(obs[lo..hi], breakAt, d - lo) <==> CutAt(obs, breakAt, lo + (d - lo)));
    assert a > 0 ==> CutAt(obs, breakAt, lo + a);
    assert b < hi - lo ==> CutAt(obs, breakAt, lo + b);
  }

  /** What a narrower window reports about one run, against the run of the wider window holding it. */
  ghost predicate Agrees(narrow: Run, wide: Run) {
    && narrow.asserted == wide.asserted
    && wide.startsAt <= narrow.startsAt && narrow.endsAt <= wide.endsAt
    && narrow.duration <= wide.duration && narrow.samples <= wide.samples
    && (!narrow.truncated ==> narrow == wide)
  }

  lemma {:induction false} UncutIsConstant(obs: seq<Obs>, breakAt: int, c: int, d: int, k: int)
    requires Maximal(obs, breakAt, c, d) && c <= k < d
    ensures obs[k].value == obs[c].value
    decreases k - c
  {
    if c < k {
      UncutIsConstant(obs, breakAt, c, d, k - 1);
      assert !CutAt(obs, breakAt, k);
    }
  }

  lemma DescriptionsAgree(obs: seq<Obs>, breakAt: int, lo: int, hi: int, a: int, b: int, c: int, d: int)
    requires Ordered(obs)
    requires 0 <= lo <= hi <= |obs| && Maximal(obs[lo..hi], breakAt, a, b)
    requires Maximal(obs, breakAt, c, d) && c <= lo + a < d
    ensures Agrees(Describe(obs[lo..hi], breakAt, a, b), Describe(obs, breakAt, c, d))
  {
    var slice := obs[lo..hi];
    StretchInSlice(obs, breakAt, lo, hi, a, b, c, d);
    UncutIsConstant(obs, breakAt, c, d, lo + a);
    if 0 < a {
      SliceCuts(obs, breakAt, lo, hi, a);
    }
    if b < hi - lo {
      SliceCuts(obs, breakAt, lo, hi, b);
    }
    assert slice[a] == obs[lo + a] && slice[b - 1] == obs[lo + b - 1];
    assert obs[lo + a].at <= obs[lo + b - 1].at;
  }

  lemma NarrowRunsAgreeWithWide(obs: seq<Obs>, breakAt: int, lo: int, hi: int,
                                narrow: seq<Run>, x: seq<int>, wide: seq<Run>, y: seq<int>, m: nat) returns (n: nat)
    requires Ordered(obs) && 0 <= lo <= hi <= |obs|
    requires IsSegmentation(obs[lo..hi], breakAt, narrow, x, hi - lo) && IsSegmentation(obs, breakAt, wide, y, |obs|)
    requires m < |narrow|
    ensures n < |wide| && Agrees(narrow[m], wide[n])
  {
    assert Maximal(obs[lo..hi], breakAt, x[m], x[m + 1]);
    n := StretchOf(obs, breakAt, y, lo + x[m], |y| - 1);
    assert Maximal(obs, breakAt, y[n], y[n + 1]);
    DescriptionsAgree(obs, breakAt, lo, hi, x[m], x[m + 1], y[n], y[n + 1]);
  }

  /** Truncation is honest: a run reported whole through one window appears identically through every wider one,
      and a truncated run lies inside a wider run of the same sense at least as long. */
  lemma {:induction false} TruncationIsHonest(obs: seq<Obs>, breakAt: int, start: Option<int>, end: Option<int>,
                           wideStart: Option<int>, wideEnd: Option<int>,
                           narrow: seq<Run>, x: seq<int>, wide: seq<Run>, y: seq<int>)
    requires Ordered(obs) && WindowInside(start, end, wideStart, wideEnd)
    requires IsSegmentation(Window(obs, start, end), breakAt, narrow, x, |Window(obs, start, end)|)
    requires IsSegmentation(Window(obs, wideStart, wideEnd), breakAt, wide, y, |Window(obs, wideStart, wideEnd)|)
    ensures forall run :: run in narrow ==> exists other :: other in wide && Agrees(run, other)
  {
    var seen := Window(obs, wideStart, wideEnd);
    var from, to := WindowIsSlice(obs, wideStart, wideEnd);
    assert Ordered(seen);
    var lo, hi := WindowIsSlice(seen, start, end);
    WindowOfWindow(obs, start, end, wideStart, wideEnd);
    forall run | run in narrow
      ensures exists other :: other in wide && Agrees(run, other)
    {
      var m :| 0 <= m < |narrow| && narrow[m] == run;
      var n := NarrowRunsAgreeWithWide(seen, breakAt, lo, hi, narrow, x, wide, y, m);
      assert wide[n] in wide;
    }
  }

  // ----- the walk -----

  /** A run under construction, closed once its far edge is known. */
  class BuildingRun {
    const value: real
    const firstMicroseconds: int
    const firstOffset: int
    const openStart: bool
    var lastMicroseconds: int
    var lastOffset: int
    var samples: nat

    constructor (value: real, microseconds: int, offset: int, openStart: bool)
      ensures this.value == value && this.openStart == openStart
      ensures firstMicroseconds == lastMicroseconds == microseconds && firstOffset == lastOffset == offset && samples == 1
    {
      this.value, this.firstMicroseconds, this.firstOffset, this.openStart := value, microseconds, offset, openStart;
      lastMicroseconds, lastOffset, samples := microseconds, offset, 1;
    }

    method Extend(microseconds: int, offset: int)
      modifies this
      ensures lastMicroseconds == microseconds && lastOffset == offset && samples == old(samples) + 1
    {
      lastMicroseconds := microseconds;
      lastOffset := offset;
      samples := samples + 1;
    }

    method Close(openEnd: bool) returns (run: Run)
      ensures run == Run(firstMicroseconds, firstOffset, lastMicroseconds, lastOffset,
                         lastMicroseconds - firstMicroseconds, samples, value == 1.0, openStart || openEnd)
    {
      run := Run(firstMicroseconds, firstOffset, lastMicroseconds, lastOffset,
                 lastMicroseconds - firstMicroseconds, samples, value == 1.0, openStart || openEnd);
    }

    /** Holds readings [lo, hi), which nothing cuts. */
    ghost predicate Holds(obs: seq<Obs>, breakAt: int, lo: int, hi: int)
      reads this
    {
      && 0 <= lo < hi <= |obs|
      && (forall k :: lo < k < hi ==> !CutAt(obs, breakAt, k))
      && value == obs[hi - 1].value == obs[lo].value
      && firstMicroseconds == obs[lo].at && firstOffset == obs[lo].offset
      && lastMicroseconds == obs[hi - 1].at && lastOffset == obs[hi - 1].offset
      && samples == hi - lo
      && openStart == OpenEdge(obs, breakAt, lo)
      && (lo > 0 ==> CutAt(obs, breakAt, lo))
    }
  }

  lemma AppendRun(obs: seq<Obs>, breakAt: int, runs: seq<Run>, bounds: seq<int>, lo: int, hi: int)
    requires IsSegmentation(obs, breakAt, runs, bounds, lo) && Maximal(obs, breakAt, lo, hi)
    ensures IsSegmentation(obs, breakAt, runs + [Describe(obs, breakAt, lo, hi)], bounds + [hi], hi)
  {
    var longer := bounds + [hi];
    assert forall n :: 0 <= n < |bounds| ==> longer[n] == bounds[n];
    forall n | 0 <= n < |longer| - 1
      ensures Maximal(obs, breakAt, longer[n], longer[n + 1])
    {
      if n < |bounds| - 1 {
        assert Maximal(obs, breakAt, bounds[n], bounds[n + 1]);
      }
    }
  }

  method DetectRuns(obs: seq<Obs>, breakAt: int) returns (runs: seq<Run>)
    ensures exists bounds :: IsSegmentation(obs, breakAt, runs, bounds, |obs|)
    ensures exists bounds :: ReportsAll(obs, breakAt, runs, bounds)
  {
    runs := [];
    ghost var bounds := [0];
    var building: BuildingRun? := null;
    ghost var lo := 0;
    for i := 0 to |obs|
      invariant building == null <==> i == 0
      invariant building != null ==> fresh(building) && building.Holds(obs, breakAt, lo, i)
      invariant IsSegmentation(obs, breakAt, runs, bounds, lo)
      invariant i == 0 ==> lo == 0
    {
      var reading := obs[i];
      if building == null {
        building := new BuildingRun(reading.value, reading.at, reading.offset, true);
      } else if reading.at - building.lastMicroseconds > breakAt {
        AppendRun(obs, breakAt, runs, bounds, lo, i);
        var run := building.Close(true);
        runs, bounds, lo := runs + [run], bounds + [i], i;
        building := new BuildingRun(reading.value, reading.at, reading.offset, true);
      } else if reading.value != building.value {
        AppendRun(obs, breakAt, runs, bounds, lo, i);
        var run := building.Close(false);
        runs, bounds, lo := runs + [run], bounds + [i], i;
        building := new BuildingRun(reading.value, reading.at, reading.offset, false);
      } else {
        building.Extend(reading.at, reading.offset);
      }
    }
    if building != null {
      AppendRun(obs, breakAt, runs, bounds, lo, |obs|);
      var run := building.Close(true);
      runs, bounds := runs + [run], bounds + [|obs|];
    }
    SegmentationReports(obs, breakAt, runs, bounds);
  }
}
