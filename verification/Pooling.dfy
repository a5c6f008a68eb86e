/** Pooling summaries: averaging every reading behind them rather than the summaries themselves. */
module Pooling {
  import opened Basics
  import opened Statistics

  function TotalCount(found: seq<Stats>): nat {
    if found == [] then 0 else TotalCount(found[..|found| - 1]) + found[|found| - 1].count
  }

  function WeightedTotal(found: seq<Stats>): real {
    if found == [] then 0.0
    else WeightedTotal(found[..|found| - 1]) + Weight(found[|found| - 1])
  }

  function PooledMean(found: seq<Stats>): Option<real> {
    var total := TotalCount(found);
    if total == 0 then None else Some(WeightedTotal(found) / (total as real))
  }

  function Flatten(groups: seq<seq<real>>): seq<real> {
    if groups == [] then [] else Flatten(groups[..|groups| - 1]) + groups[|groups| - 1]
  }

  function StatsOfEach(groups: seq<seq<real>>): (found: seq<Stats>)
    requires forall k :: 0 <= k < |groups| ==> groups[k] != []
    ensures |found| == |groups|
  {
    seq(|groups|, k requires 0 <= k < |groups| => StatsOf(groups[k]))
  }

  lemma StatsOfInit(groups: seq<seq<real>>)
    requires groups != [] && forall k :: 0 <= k < |groups| ==> groups[k] != []
    ensures var n := |groups| - 1;
            StatsOfEach(groups)[..n] == StatsOfEach(groups[..n]) && StatsOfEach(groups)[n] == StatsOf(groups[n])
  {
  }

  lemma {:induction false} PooledTotals(groups: seq<seq<real>>)
    requires forall k :: 0 <= k < |groups| ==> groups[k] != []
    ensures TotalCount(StatsOfEach(groups)) == |Flatten(groups)|
    ensures WeightedTotal(StatsOfEach(groups)) == Sum(Flatten(groups))
    ensures groups != [] ==> Flatten(groups) != []
  {
    if groups != [] {
      var init, last := groups[..|groups| - 1], groups[|groups| - 1];
      PooledTotals(init);
      var found := StatsOfEach(groups);
      StatsOfInit(groups);
      assert Flatten(groups) == Flatten(init) + last;
      SumConcat(Flatten(init), last);
      WeightedStep(found, last);
    }
  }

  lemma {:induction false} WeightedStep(found: seq<Stats>, last: seq<real>)
    requires last != [] && found != [] && found[|found| - 1] == StatsOf(last)
    ensures WeightedTotal(found) == WeightedTotal(found[..|found| - 1]) + Sum(last)
  {
    WeightedMeanIsSum(last);
  }

  /** Pooling averages every reading behind the summaries, not the summaries. */
  lemma {:induction false} PoolingAveragesEveryReading(groups: seq<seq<real>>)
    requires forall k :: 0 <= k < |groups| ==> groups[k] != []
    ensures PooledMean(StatsOfEach(groups)) == if groups == [] then None else Some(StatsOf(Flatten(groups)).mean)
  {
    PooledTotals(groups);
  }

  // ----- merging summaries -----

  function Minima(found: seq<Stats>): (r: seq<real>)
    ensures |r| == |found|
  {
    seq(|found|, k requires 0 <= k < |found| => found[k].minimum)
  }

  function Maxima(found: seq<Stats>): (r: seq<real>)
    ensures |r| == |found|
  {
    seq(|found|, k requires 0 <= k < |found| => found[k].maximum)
  }

  /** One summary made of several: counts added, the smallest minimum, the largest maximum, means pooled by count. */
  function Merged(found: seq<Stats>): Stats
    requires found != [] && TotalCount(found) > 0
  {
    Stats(TotalCount(found), Smallest(Minima(found)), Largest(Maxima(found)), WeightedTotal(found) / (TotalCount(found) as real))
  }

  lemma {:induction false} FlattenMembers(groups: seq<seq<real>>, v: real)
    ensures v in Flatten(groups) <==> exists k :: 0 <= k < |groups| && v in groups[k]
  {
    if groups != [] {
      var n := |groups| - 1;
      FlattenMembers(groups[..n], v);
      assert v in Flatten(groups) <==> v in Flatten(groups[..n]) || v in groups[n];
      assert forall k :: 0 <= k < n ==> groups[..n][k] == groups[k];
    }
  }

  lemma {:induction false} SmallestIs(values: seq<real>, m: real)
    requires m in values && forall v :: v in values ==> m <= v
    ensures Smallest(values) == m
  {
  }

  lemma {:induction false} LargestIs(values: seq<real>, m: real)
    requires m in values && forall v :: v in values ==> v <= m
    ensures Largest(values) == m
  {
  }

  lemma {:induction false} SmallestOfFlatten(groups: seq<seq<real>>)
    requires groups != [] && forall k :: 0 <= k < |groups| ==> groups[k] != []
    ensures Flatten(groups) != [] && Smallest(Flatten(groups)) == Smallest(Minima(StatsOfEach(groups)))
  {
    var minima := Minima(StatsOfEach(groups));
    var m := Smallest(minima);
    var n :| 0 <= n < |minima| && minima[n] == m;
    assert m in groups[n];
    FlattenMembers(groups, m);
    forall v | v in Flatten(groups) ensures m <= v {
      FlattenMembers(groups, v);
      var k :| 0 <= k < |groups| && v in groups[k];
      assert minima[k] in minima;
    }
    SmallestIs(Flatten(groups), m);
  }

  lemma {:induction false} LargestOfFlatten(groups: seq<seq<real>>)
    requires groups != [] && forall k :: 0 <= k < |groups| ==> groups[k] != []
    ensures Flatten(groups) != [] && Largest(Flatten(groups)) == Largest(Maxima(StatsOfEach(groups)))
  {
    var maxima := Maxima(StatsOfEach(groups));
    var m := Largest(maxima);
    var n :| 0 <= n < |maxima| && maxima[n] == m;
    assert m in groups[n];
    FlattenMembers(groups, m);
    forall v | v in Flatten(groups) ensures v <= m {
      FlattenMembers(groups, v);
      var k :| 0 <= k < |groups| && v in groups[k];
      assert maxima[k] in maxima;
    }
    LargestIs(Flatten(groups), m);
  }

  /** Merging summaries gives the summary of every reading behind them. */
  lemma {:induction false} MergingSummarizesEveryReading(groups: seq<seq<real>>)
    requires groups != [] && forall k :: 0 <= k < |groups| ==> groups[k] != []
    ensures TotalCount(StatsOfEach(groups)) > 0 && Flatten(groups) != []
    ensures Merged(StatsOfEach(groups)) == StatsOf(Flatten(groups))
  {
    PooledTotals(groups);
    SmallestOfFlatten(groups);
    LargestOfFlatten(groups);
  }
}
