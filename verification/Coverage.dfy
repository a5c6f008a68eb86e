/** The edges of a recording and its widest hole, found in one pass. */
module Coverage {
  import opened Basics

  /** Some reading falls in [from, from + width). */
  ghost predicate Seen(obs: seq<Obs>, from: int, width: int) {
    exists k :: 0 <= k < |obs| && from <= obs[k].at < from + width
  }

  /** However a window of this width is laid inside the recorded span, it holds a reading. */
  ghost predicate NothingHides(obs: seq<Obs>, width: int)
    requires obs != []
  {
    forall from :: obs[0].at <= from && from + width <= obs[|obs| - 1].at + 1 ==> Seen(obs, from, width)
  }

  function Step(obs: seq<Obs>, k: int): int
    requires 0 < k < |obs|
  {
    obs[k].at - obs[k - 1].at
  }

  /** `gap` is the widest distance between consecutive readings among the first `n`, or zero when there is at most one. */
  ghost predicate LargestGapUpTo(obs: seq<Obs>, n: int, gap: int) {
    && 0 <= n <= |obs| && gap >= 0
    && (forall k :: 0 < k < n ==> Step(obs, k) <= gap)
    && (gap > 0 ==> exists k :: 0 < k < n && Step(obs, k) == gap)
  }

  ghost predicate IsLargestGap(obs: seq<Obs>, gap: int) {
    LargestGapUpTo(obs, |obs|, gap)
  }

  lemma LaterReadingWithin(obs: seq<Obs>, gap: int, from: int)
    requires Ordered(obs) && obs != [] && IsLargestGap(obs, gap)
    requires obs[0].at < from <= obs[|obs| - 1].at
    ensures exists k :: 0 <= k < |obs| && from <= obs[k].at < from + gap
  {
    var k := 0;
    while obs[k].at < from
      invariant 0 <= k < |obs|
      invariant k > 0 ==> obs[k - 1].at < from
      decreases |obs| - k
    {
      k := k + 1;
    }
    assert Step(obs, k) <= gap;
  }

  /** The largest gap is the tight bound: it is the narrowest width no window of which can slip between readings. */
  lemma LargestGapIsTight(obs: seq<Obs>, gap: int, width: int)
    requires Ordered(obs) && obs != [] && IsLargestGap(obs, gap) && width > 0
    ensures NothingHides(obs, width) <==> width >= gap
  {
    if width >= gap {
      forall from | obs[0].at <= from && from + width <= obs[|obs| - 1].at + 1
        ensures Seen(obs, from, width)
      {
        if from == obs[0].at {
        } else {
          LaterReadingWithin(obs, gap, from);
        }
      }
    } else {
      var k :| 0 < k < |obs| && Step(obs, k) == gap;
      assert !Seen(obs, obs[k - 1].at + 1, width);
      assert obs[k].at <= obs[|obs| - 1].at && obs[0].at <= obs[k - 1].at;
    }
  }

  /** A recording cannot span more than its gaps allow. */
  lemma {:induction false} SpanBoundedByGaps(obs: seq<Obs>, gap: int, n: nat)
    requires n < |obs| && forall k :: 0 < k < |obs| ==> Step(obs, k) <= gap
    ensures obs[n].at - obs[0].at <= n * gap
  {
    if n > 0 {
      SpanBoundedByGaps(obs, gap, n - 1);
      assert Step(obs, n) <= gap;
      assert n * gap == (n - 1) * gap + gap;
    }
  }

  datatype CoverageError = SensorVanished

  datatype Edges = Edges(firstAt: int, firstOffset: int, lastAt: int, lastOffset: int, largestGap: int)

  method EdgesAndGap(obs: seq<Obs>) returns (result: Result<Edges, CoverageError>)
    requires Ordered(obs)
    ensures result.Err? <==> obs == []
    ensures result.Ok? ==>
              var e, last := result.value, obs[|obs| - 1];
              && e.firstAt == obs[0].at && e.firstOffset == obs[0].offset
              && e.lastAt == last.at && e.lastOffset == last.offset
              && IsLargestGap(obs, e.largestGap)
              && e.lastAt - e.firstAt <= (|obs| - 1) * e.largestGap
  {
    var largest := 0;
    var first, previous: Option<(int, int)> := None, None;
    for i := 0 to |obs|
      invariant first == if i == 0 then None else Some((obs[0].at, obs[0].offset))
      invariant previous == if i == 0 then None else Some((obs[i - 1].at, obs[i - 1].offset))
      invariant LargestGapUpTo(obs, i, largest)
    {
      var current := (obs[i].at, obs[i].offset);
      if first.None? {
        first := Some(current);
      } else if previous.Some? {
        largest := Max(largest, current.0 - previous.value.0);
        assert Step(obs, i) == current.0 - previous.value.0;
      }
      previous := Some(current);
    }
    if first.None? || previous.None? {
      return Err(SensorVanished);
    }
    SpanBoundedByGaps(obs, largest, |obs| - 1);
    return Ok(Edges(first.value.0, first.value.1, previous.value.0, previous.value.1, largest));
  }
}
