/** Count, minimum, maximum and mean of a list of values, in exact arithmetic. */
module Statistics {
  function Sum(values: seq<real>): real {
    if values == [] then 0.0 else Sum(values[..|values| - 1]) + values[|values| - 1]
  }

  function Smallest(values: seq<real>): (m: real)
    requires values != []
    ensures m in values && forall v :: v in values ==> m <= v
  {
    var last := values[|values| - 1];
    if |values| == 1 then last
    else
      var m := Smallest(values[..|values| - 1]);
      assert values == values[..|values| - 1] + [last];
      if last < m then last else m
  }

  function Largest(values: seq<real>): (m: real)
    requires values != []
    ensures m in values && forall v :: v in values ==> v <= m
  {
    var last := values[|values| - 1];
    if |values| == 1 then last
    else
      var m := Largest(values[..|values| - 1]);
      assert values == values[..|values| - 1] + [last];
      if m < last then last else m
  }

  /** The four numbers every report line carries. */
  datatype Stats = Stats(count: nat, minimum: real, maximum: real, mean: real)

  function StatsOf(values: seq<real>): (s: Stats)
    requires values != []
  {
    Stats(|values|, Smallest(values), Largest(values), Sum(values) / (|values| as real))
  }

  lemma {:induction false} SumAppend(values: seq<real>, v: real)
    ensures Sum(values + [v]) == Sum(values) + v
  {
    assert (values + [v])[..|values|] == values;
  }

  lemma {:induction false} SumConcat(a: seq<real>, b: seq<real>)
    ensures Sum(a + b) == Sum(a) + Sum(b)
  {
    if b == [] {
      assert a + b == a;
    } else {
      var init, last := b[..|b| - 1], b[|b| - 1];
      SumConcat(a, init);
      SumAppend(a + init, last);
      assert a + b == (a + init) + [last];
    }
  }

  lemma QuotientTimes(total: real, n: real)
    requires n != 0.0
    ensures (total / n) * n == total
  {
  }

  /** A mean weighted by the count behind it. */
  function Weight(s: Stats): real {
    s.mean * (s.count as real)
  }

  lemma WeightOfQuotient(s: Stats, total: real)
    requires s.count > 0 && s.mean == total / (s.count as real)
    ensures Weight(s) == total
  {
    QuotientTimes(total, s.count as real);
  }

  /** Weighting a mean by its count gives back the sum it was taken from. */
  lemma {:induction false} WeightedMeanIsSum(values: seq<real>)
    requires values != []
    ensures Weight(StatsOf(values)) == Sum(values)
  {
    WeightOfQuotient(StatsOf(values), Sum(values));
  }

  lemma {:induction false} SumBounds(values: seq<real>, lo: real, hi: real)
    requires forall k :: 0 <= k < |values| ==> lo <= values[k] <= hi
    ensures lo * (|values| as real) <= Sum(values) <= hi * (|values| as real)
  {
    if values != [] {
      var n := (|values| - 1) as real;
      SumBounds(values[..|values| - 1], lo, hi);
      assert lo * (n + 1.0) == lo * n + lo && hi * (n + 1.0) == hi * n + hi;
    }
  }

  lemma FactorNotNegative(x: real, n: real)
    requires n > 0.0 && x * n >= 0.0
    ensures x >= 0.0
  {
  }

  lemma QuotientBounds(total: real, n: real, lo: real, hi: real)
    requires n > 0.0 && lo * n <= total <= hi * n
    ensures lo <= total / n <= hi
  {
    QuotientTimes(total, n);
    FactorNotNegative(total / n - lo, n);
    FactorNotNegative(hi - total / n, n);
  }

  lemma MeanBetweenExtremes(values: seq<real>)
    requires values != []
    ensures StatsOf(values).minimum <= StatsOf(values).mean <= StatsOf(values).maximum
  {
    var lo, hi := Smallest(values), Largest(values);
    forall k | 0 <= k < |values| ensures lo <= values[k] <= hi {
      assert values[k] in values;
    }
    SumBounds(values, lo, hi);
    QuotientBounds(Sum(values), |values| as real, lo, hi);
  }
}
