/** Judging whether a sensor is still talking, against the median interval of its own recent readings. */
module Connectivity {
  import opened Basics
  import opened Sorting

  const LATE_MULTIPLE := 3
  const SILENT_MULTIPLE := 10
  /** Two minutes, in microseconds. */
  const FUTURE_TOLERANCE := 120_000_000
  const CADENCE_SAMPLE := 50
  const MINIMUM_FOR_CADENCE := 3

  datatype Presence = Live | New | Late | Silent | Never

  datatype Facts = Facts(lastSeen: int, cadence: Option<int>)

  // ----- the usual interval -----

  /** The stamps of a sensor's latest readings, newest first, out of its history in time order. */
  function Sample(history: seq<int>): (sample: seq<int>)
    ensures |sample| == Min(CADENCE_SAMPLE, |history|)
  {
    seq(Min(CADENCE_SAMPLE, |history|), k requires 0 <= k < Min(CADENCE_SAMPLE, |history|) => history[|history| - 1 - k])
  }

  function Gaps(stamps: seq<int>): (gaps: seq<int>)
    ensures |gaps| == Max(0, |stamps| - 1)
  {
    if stamps == [] then []
    else seq(|stamps| - 1, k requires 0 <= k < |stamps| - 1 => stamps[k] - stamps[k + 1])
  }

  predicate Less(a: int, b: int) {
    a < b
  }

  /** Twice the median: the middle element of an odd number, the sum of the two middle ones of an even number. */
  function TwiceMedian(gaps: seq<int>): int
    requires gaps != []
  {
    var sorted, n := SortBy(gaps, Less), |gaps|;
    if n % 2 == 1 then 2 * sorted[n / 2] else sorted[n / 2 - 1] + sorted[n / 2]
  }

  /** Half of `twice`, rounded to a whole number of microseconds, ties to even. */
  function HalfRounded(twice: int): (half: int)
    ensures 2 * half - 1 <= twice <= 2 * half + 1
  {
    var floor := twice / 2;
    if twice % 2 == 0 || floor % 2 == 0 then floor else floor + 1
  }

  function Cadence(history: seq<int>): Option<int> {
    var stamps := Sample(history);
    if |stamps| < MINIMUM_FOR_CADENCE then None
    else
      var twice := TwiceMedian(Gaps(stamps));
      if twice > 0 then Some(HalfRounded(twice)) else None
  }

  // ----- the verdict -----

  function Recorded(history: seq<int>): Option<Facts> {
    if history == [] then None else Some(Facts(history[|history| - 1], Cadence(history)))
  }

  function Judge(facts: Option<Facts>, now: int): Presence {
    if facts.None? then Never
    else
      var since := now - facts.value.lastSeen;
      if since < -FUTURE_TOLERANCE then Late
      else if facts.value.cadence.None? then New
      else if since >= facts.value.cadence.value * SILENT_MULTIPLE then Silent
      else if since >= facts.value.cadence.value * LATE_MULTIPLE then Late
      else Live
  }

  // ----- counting and the sorted arrangement -----

  function CountAtMost(s: seq<int>, bound: int): (count: nat)
    ensures count <= |s|
  {
    if s == [] then 0 else (if s[0] <= bound then 1 else 0) + CountAtMost(s[1..], bound)
  }

  predicate NeverFalls(s: seq<int>) {
    forall i, j :: 0 <= i < j < |s| ==> s[i] <= s[j]
  }

  lemma {:induction false} InsertNeverFalls(x: int, s: seq<int>)
    requires NeverFalls(s)
    ensures NeverFalls(Insert(x, s, Less))
  {
    if s != [] && s[0] <= x {
      var tail := Insert(x, s[1..], Less);
      InsertNeverFalls(x, s[1..]);
      forall y | y in tail ensures s[0] <= y {
        assert y in multiset(tail);
        assert y == x || y in s[1..];
      }
      PrependNeverFalls(s[0], tail);
    }
  }

  lemma PrependNeverFalls(x: int, s: seq<int>)
    requires NeverFalls(s) && forall y :: y in s ==> x <= y
    ensures NeverFalls([x] + s)
  {
    forall i, j | 0 <= i < j < |s| + 1 ensures ([x] + s)[i] <= ([x] + s)[j] {
      assert s[j - 1] in s;
    }
  }

  lemma {:induction false} InsertCounts(x: int, s: seq<int>, bound: int)
    ensures CountAtMost(Insert(x, s, Less), bound) == CountAtMost(s, bound) + if x <= bound then 1 else 0
  {
    if s == [] || x < s[0] {
      assert ([x] + s)[1..] == s;
    } else {
      InsertCounts(x, s[1..], bound);
      assert ([s[0]] + Insert(x, s[1..], Less))[1..] == Insert(x, s[1..], Less);
    }
  }

  lemma {:induction false} SortingKeepsCounts(s: seq<int>, bound: int)
    ensures NeverFalls(SortBy(s, Less))
    ensures CountAtMost(SortBy(s, Less), bound) == CountAtMost(s, bound)
  {
    if s != [] {
      SortingKeepsCounts(s[1..], bound);
      InsertNeverFalls(s[0], SortBy(s[1..], Less));
      InsertCounts(s[0], SortBy(s[1..], Less), bound);
    }
  }

  /** In a sorted sequence the count is the boundary. */
  lemma {:induction false} CountIsBoundary(s: seq<int>, bound: int, k: nat)
    requires NeverFalls(s) && k < |s|
    ensures s[k] <= bound <==> k < CountAtMost(s, bound)
  {
    if s[0] > bound {
      AllAbove(s, bound);
    } else if k > 0 {
      CountIsBoundary(s[1..], bound, k - 1);
    }
  }

  lemma {:induction false} AllAbove(s: seq<int>, bound: int)
    requires forall k :: 0 <= k < |s| ==> s[k] > bound
    ensures CountAtMost(s, bound) == 0
  {
    if s != [] {
      AllAbove(s[1..], bound);
    }
  }

  // ----- what a majority of the gaps decides -----

  /** A majority of gaps of at most `bound` bounds the median; for an odd number of gaps nothing less does. */
  lemma {:induction false} MajorityBoundsMedian(gaps: seq<int>, bound: int)
    requires gaps != []
    ensures 2 * CountAtMost(gaps, bound) > |gaps| ==> TwiceMedian(gaps) <= 2 * bound
    ensures 2 * CountAtMost(gaps, bound) < |gaps| ==> TwiceMedian(gaps) >= 2 * (bound + 1)
  {
    var n := |gaps|;
    SortingKeepsCounts(gaps, bound);
    CountIsBoundary(SortBy(gaps, Less), bound, n / 2);
    if n % 2 == 0 {
      CountIsBoundary(SortBy(gaps, Less), bound, n / 2 - 1);
    }
  }

  /** More than half of the sampled gaps are at most `bound`. */
  predicate MostGapsAtMost(history: seq<int>, bound: int) {
    2 * CountAtMost(Gaps(Sample(history)), bound) > |Gaps(Sample(history))|
  }

  /** More than half of the sampled gaps exceed `bound`. */
  predicate MostGapsAbove(history: seq<int>, bound: int) {
    2 * CountAtMost(Gaps(Sample(history)), bound) < |Gaps(Sample(history))|
  }

  lemma GapsArePositive(history: seq<int>)
    requires Rising(history)
    ensures CountAtMost(Gaps(Sample(history)), 0) == 0
  {
    AllAbove(Gaps(Sample(history)), 0);
  }

  /** Distinct stamps always have a positive cadence once there are enough of them. */
  lemma {:induction false} CadenceExists(history: seq<int>)
    requires Rising(history) && |history| >= MINIMUM_FOR_CADENCE
    ensures Cadence(history).Some? && Cadence(history).value >= 1
  {
    GapsArePositive(history);
    MajorityBoundsMedian(Gaps(Sample(history)), 0);
  }

  /** However long the other outages were, the usual interval is at most what most gaps are. */
  lemma {:induction false} CadenceIsAtMost(history: seq<int>, bound: int)
    requires Rising(history) && |history| >= MINIMUM_FOR_CADENCE && MostGapsAtMost(history, bound)
    ensures Cadence(history).Some? && 1 <= Cadence(history).value <= bound
  {
    CadenceExists(history);
    MajorityBoundsMedian(Gaps(Sample(history)), bound);
  }

  lemma {:induction false} CadenceIsAbove(history: seq<int>, bound: int)
    requires Rising(history) && |history| >= MINIMUM_FOR_CADENCE && MostGapsAbove(history, bound)
    ensures Cadence(history).Some? && bound < Cadence(history).value
  {
    CadenceExists(history);
    MajorityBoundsMedian(Gaps(Sample(history)), bound);
  }

  /** A sensor quiet for ten times what most of its gaps are at most is judged silent. */
  lemma {:induction false} QuietSensorIsSilent(history: seq<int>, bound: int, now: int)
    requires Rising(history) && |history| >= MINIMUM_FOR_CADENCE && MostGapsAtMost(history, bound)
    requires now - history[|history| - 1] >= SILENT_MULTIPLE * bound
    ensures Judge(Recorded(history), now) == Silent
  {
    CadenceIsAtMost(history, bound);
  }

  /** A sensor heard from within three times what most of its gaps exceed is judged live. */
  lemma {:induction false} RecentSensorIsLive(history: seq<int>, bound: int, now: int)
    requires Rising(history) && |history| >= MINIMUM_FOR_CADENCE && MostGapsAbove(history, bound)
    requires -FUTURE_TOLERANCE <= now - history[|history| - 1] < LATE_MULTIPLE * (bound + 1)
    ensures Judge(Recorded(history), now) == Live
  {
    CadenceIsAbove(history, bound);
  }

  /** No sampled gap lies between `bound` and twice that: the others are outages. */
  predicate RestAreOutages(history: seq<int>, bound: int) {
    CountAtMost(Gaps(Sample(history)), 2 * bound) == CountAtMost(Gaps(Sample(history)), bound)
  }

  lemma {:induction false} SplitMedianIsAbove(gaps: seq<int>, bound: int)
    requires gaps != [] && 2 * CountAtMost(gaps, bound) <= |gaps|
    requires CountAtMost(gaps, 2 * bound) == CountAtMost(gaps, bound) && CountAtMost(gaps, 0) == 0
    ensures TwiceMedian(gaps) >= 2 * (bound + 1)
  {
    var sorted, n := SortBy(gaps, Less), |gaps|;
    SortingKeepsCounts(gaps, 2 * bound);
    SortingKeepsCounts(gaps, bound);
    SortingKeepsCounts(gaps, 0);
    CountIsBoundary(sorted, 2 * bound, n / 2);
    CountIsBoundary(sorted, bound, n / 2);
    if n % 2 == 0 {
      CountIsBoundary(sorted, 0, n / 2 - 1);
    }
  }

  lemma RoundedHalfIsAtLeast(twice: int, least: int)
    requires twice >= 2 * least
    ensures HalfRounded(twice) >= least
  {
  }

  /** When the other gaps are outages, ten intervals of silence are told from a live sensor exactly by a majority: half is not enough. */
  lemma {:induction false} SilentExactlyWithMajority(history: seq<int>, bound: int)
    requires Rising(history) && |history| >= MINIMUM_FOR_CADENCE && bound >= 1 && RestAreOutages(history, bound)
    ensures Judge(Recorded(history), history[|history| - 1] + SILENT_MULTIPLE * bound) == Silent <==> MostGapsAtMost(history, bound)
  {
    if MostGapsAtMost(history, bound) {
      QuietSensorIsSilent(history, bound, history[|history| - 1] + SILENT_MULTIPLE * bound);
    } else {
      var gaps := Gaps(Sample(history));
      CadenceExists(history);
      GapsArePositive(history);
      SplitMedianIsAbove(gaps, bound);
      RoundedHalfIsAtLeast(TwiceMedian(gaps), bound + 1);
    }
  }

  // ----- what the interval is taken from -----

  /** The sample is the latest fifty stamps, or all of fewer, newest first; a gap is the step from one to the one before. */
  lemma SampleIsTheLatest(history: seq<int>, k: nat)
    requires k < |Sample(history)|
    ensures |Sample(history)| == if |history| < 50 then |history| else 50
    ensures Sample(history)[k] == history[|history| - 1 - k]
    ensures k + 1 < |Sample(history)| ==>
              k < |Gaps(Sample(history))| && Gaps(Sample(history))[k] == history[|history| - 1 - k] - history[|history| - 2 - k]
  {
  }

  /** Rounded to the nearest microsecond, ties to the even one. */
  lemma RoundingIsToNearestEven(twice: int)
    ensures var half := HalfRounded(twice); -1 <= 2 * half - twice <= 1 && (twice != 2 * half ==> half % 2 == 0)
  {
  }

  // ----- the exact range of every verdict -----

  /** What each verdict says of the silence since the last reading, in microseconds. */
  lemma VerdictsAreExact(facts: Facts, now: int)
    requires facts.cadence.Some? ==> facts.cadence.value >= 0
    ensures var verdict, since := Judge(Some(facts), now), now - facts.lastSeen;
            && (verdict == New <==> since >= -120_000_000 && facts.cadence.None?)
            && (verdict == Silent <==> since >= -120_000_000 && facts.cadence.Some? && since >= 10 * facts.cadence.value)
            && (verdict == Late <==>
                  || since < -120_000_000
                  || (facts.cadence.Some? && 3 * facts.cadence.value <= since < 10 * facts.cadence.value))
            && (verdict == Live <==>
                  facts.cadence.Some? && -120_000_000 <= since < 3 * facts.cadence.value && since < 10 * facts.cadence.value)
            && verdict != Never
  {
  }

  /** A sensor is never heard from if and only if nothing is recorded, and new if and only if one or two readings are. */
  lemma FewReadingsAreNew(history: seq<int>, now: int)
    requires Rising(history)
    ensures Judge(Recorded(history), now) == Never <==> history == []
    ensures history != [] ==>
              (Judge(Recorded(history), now) == New <==> |history| < 3 && now - history[|history| - 1] >= -120_000_000)
  {
    if |history| >= MINIMUM_FOR_CADENCE {
      CadenceExists(history);
    }
  }

  lemma FirstIsLeast(s: seq<int>, k: nat)
    requires NeverFalls(s) && k < |s|
    ensures s[0] <= s[k]
  {
  }

  lemma HeadsAgree(a: seq<int>, b: seq<int>)
    requires NeverFalls(a) && NeverFalls(b) && multiset(a) == multiset(b) && a != [] && b != []
    ensures a[0] == b[0]
  {
    var x, y := a[0], b[0];
    assert x in multiset(b) && y in multiset(a);
    var i :| 0 <= i < |b| && b[i] == x;
    var j :| 0 <= j < |a| && a[j] == y;
    FirstIsLeast(b, i);
    FirstIsLeast(a, j);
  }

  lemma RestNeverFalls(s: seq<int>)
    requires NeverFalls(s) && s != []
    ensures NeverFalls(s[1..])
  {
  }

  lemma {:induction false} SameArrangement(a: seq<int>, b: seq<int>)
    requires NeverFalls(a) && NeverFalls(b) && multiset(a) == multiset(b)
    ensures a == b
  {
    if a == [] || b == [] {
      assert |multiset(a)| == |multiset(b)|;
    } else {
      HeadsAgree(a, b);
      RestOfBag(a);
      RestOfBag(b);
      RestNeverFalls(a);
      RestNeverFalls(b);
      SameArrangement(a[1..], b[1..]);
      assert a == [a[0]] + a[1..] && b == [b[0]] + b[1..];
    }
  }

  /** The median, from whatever arrangement in order: the middle gap of an odd number, the mean of the two middle ones of an even one. */
  lemma MedianOfAnyArrangement(gaps: seq<int>, sorted: seq<int>)
    requires gaps != [] && NeverFalls(sorted) && multiset(sorted) == multiset(gaps)
    ensures |sorted| == |gaps|
    ensures |gaps| % 2 == 1 ==> TwiceMedian(gaps) == 2 * sorted[|gaps| / 2]
    ensures |gaps| % 2 == 0 ==> TwiceMedian(gaps) == sorted[|gaps| / 2 - 1] + sorted[|gaps| / 2]
  {
    SortingKeepsCounts(gaps, 0);
    SameArrangement(sorted, SortBy(gaps, Less));
  }
}
