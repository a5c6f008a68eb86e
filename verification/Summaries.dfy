/** Gated summaries of one sensor, or of the difference between two. */
module Summaries {
  import opened Basics
  import opened Statistics
  import opened StateGates
  import Pairing

  /** The state series a report is gated on, and the sense it keeps. */
  datatype Gating = Gating(signal: seq<Obs>, tolerance: int, expected: real)

  /** Where one gate stands after it was asked about these samples in turn. */
  function Stand(signal: seq<Obs>, samples: seq<Obs>): (p: nat)
    ensures p <= |signal|
    ensures p == |signal| <==> signal == []
  {
    if samples == [] then 0 else Seek(signal, Stand(signal, samples[..|samples| - 1]), samples[|samples| - 1].at)
  }

  /** What a gate that was asked about every sample in turn says of the last one. */
  predicate Passes(samples: seq<Obs>, gating: Option<Gating>)
    requires samples != []
  {
    gating.None? ||
    var g := gating.value;
    Answer(g.signal, g.tolerance, g.expected, Stand(g.signal, samples), samples[|samples| - 1].at)
  }

  /** The values a gate lets through, in order; without a gate, all of them. */
  function Kept(samples: seq<Obs>, gating: Option<Gating>): (values: seq<real>)
    ensures |values| <= |samples|
  {
    if samples == [] then []
    else Kept(samples[..|samples| - 1], gating) + if Passes(samples, gating) then [samples[|samples| - 1].value] else []
  }

  /** The values of the samples at whose instant the signal, searched as a whole, held the expected value. */
  ghost function GloballyKept(samples: seq<Obs>, g: Gating): (values: seq<real>) {
    if samples == [] then []
    else
      var last := samples[|samples| - 1];
      GloballyKept(samples[..|samples| - 1], g)
      + if Holds(g.signal, g.tolerance, g.expected, last.at) then [last.value] else []
  }

  /** Walk samples once, asking the gate about each in turn. */
  method Admitted(samples: seq<Obs>, gating: Option<Gating>) returns (values: seq<real>)
    ensures values == Kept(samples, gating)
  {
    values := [];
    if gating.None? {
      for i := 0 to |samples|
        invariant values == Kept(samples[..i], gating)
      {
        values := values + [samples[i].value];
        assert samples[..i + 1][..i] == samples[..i];
      }
      assert samples[..|samples|] == samples;
      return;
    }
    var signal, tolerance, expected := gating.value.signal, gating.value.tolerance, gating.value.expected;
    var gate := new StateGate(signal, tolerance, expected);
    for i := 0 to |samples|
      invariant gate.Valid() && fresh(gate)
      invariant gate.observations == signal && gate.tolerance == tolerance && gate.expected == expected
      invariant gate.position == Stand(signal, samples[..i])
      invariant values == Kept(samples[..i], gating)
    {
      assert samples[..i + 1][..i] == samples[..i];
      var admitted := gate.Admits(samples[i].at);
      if admitted {
        values := values + [samples[i].value];
      }
    }
    assert samples[..|samples|] == samples;
  }

  // ----- when the walk is the global search -----

  lemma {:induction false} StandIsNearest(signal: seq<Obs>, samples: seq<Obs>)
    requires Ordered(signal) && StallFree(signal) && signal != [] && Ordered(samples) && samples != []
    ensures IsNearest(signal, samples[|samples| - 1].at, Stand(signal, samples))
  {
    var init, t := samples[..|samples| - 1], samples[|samples| - 1].at;
    var p := Stand(signal, init);
    if init != [] {
      StandIsNearest(signal, init);
      StillNotPassed(signal, p, init[|init| - 1].at, t);
    }
    SeekFindsNearest(signal, p, t);
  }

  lemma {:induction false} KeptIsGlobal(samples: seq<Obs>, g: Gating)
    requires Ordered(samples) && Ordered(g.signal) && StallFree(g.signal)
    ensures Kept(samples, Some(g)) == GloballyKept(samples, g)
  {
    if samples != [] {
      KeptIsGlobal(samples[..|samples| - 1], g);
      if g.signal != [] {
        StandIsNearest(g.signal, samples);
        AnswerIsGlobal(g.signal, g.tolerance, g.expected, Stand(g.signal, samples), samples[|samples| - 1].at);
      }
    }
  }

  ghost predicate KeepsGlobally(signal: seq<Obs>, samples: seq<Obs>, tolerance: int, expected: real) {
    Kept(samples, Some(Gating(signal, tolerance, expected))) == GloballyKept(samples, Gating(signal, tolerance, expected))
  }

  lemma {:induction false} OneSample(o: Obs, g: Gating)
    ensures |Kept([o], Some(g))| == if Answer(g.signal, g.tolerance, g.expected, Seek(g.signal, 0, o.at), o.at) then 1 else 0
    ensures |GloballyKept([o], g)| == if Holds(g.signal, g.tolerance, g.expected, o.at) then 1 else 0
  {
    assert [o][..0] == [];
    assert Stand(g.signal, []) == 0;
    assert Kept([], Some(g)) == [] && GloballyKept([], g) == [];
  }

  /** One gate walked past ascending samples keeps what a global search would, for every series, tolerance and sense,
      if and only if the signal repeats no instant before its end. */
  lemma GatingIsExactWhenStallFree(signal: seq<Obs>)
    requires Ordered(signal)
    ensures StallFree(signal)
            <==> forall samples, tolerance, expected :: Ordered(samples) ==> KeepsGlobally(signal, samples, tolerance, expected)
  {
    if StallFree(signal) {
      forall samples, tolerance, expected | Ordered(samples) ensures KeepsGlobally(signal, samples, tolerance, expected) {
        KeptIsGlobal(samples, Gating(signal, tolerance, expected));
      }
    } else {
      var t, expected := StallGivesAWrongAnswer(signal);
      OneSample(Obs(t, 0, 1.0), Gating(signal, 0, expected));
      assert Ordered([Obs(t, 0, 1.0)]) && !KeepsGlobally(signal, [Obs(t, 0, 1.0)], 0, expected);
    }
  }

  /** A signal recorded under one identity an instant is always read exactly. */
  lemma StrictSignalsAreReadExactly(signal: seq<Obs>, samples: seq<Obs>, tolerance: int, expected: real)
    requires StrictlyIncreasing(signal) && Ordered(samples)
    ensures KeepsGlobally(signal, samples, tolerance, expected)
  {
    StrictIsStallFree(signal);
    KeptIsGlobal(samples, Gating(signal, tolerance, expected));
  }

  // ----- one sensor -----

  datatype Summary = Summary(stats: Stats, excluded: nat)

  /** One sensor's summary: over every sample without a gate, over those it lets through with one. */
  method Summarize(samples: seq<Obs>, gating: Option<Gating>) returns (summary: Option<Summary>)
    ensures summary.None? <==> Kept(samples, gating) == []
    ensures summary.Some? ==>
              && summary.value.stats == StatsOf(Kept(samples, gating))
              && summary.value.excluded + summary.value.stats.count == |samples|
  {
    var values := Admitted(samples, gating);
    if values == [] {
      return None;
    }
    return Some(Summary(StatsOf(values), |samples| - |values|));
  }

  lemma {:induction false} UngatedKeepsEverything(samples: seq<Obs>)
    ensures |Kept(samples, None)| == |samples|
    ensures forall k :: 0 <= k < |samples| ==> Kept(samples, None)[k] == samples[k].value
  {
    if samples != [] {
      UngatedKeepsEverything(samples[..|samples| - 1]);
    }
  }

  /** At its last sample a gate that was asked about every one in turn had no observation in reach. */
  predicate Unseen(samples: seq<Obs>, signal: seq<Obs>, tolerance: int)
    requires samples != []
  {
    var q := Stand(signal, samples);
    q == |signal| || Dist(signal[q].at, samples[|samples| - 1].at) > tolerance
  }

  /** The values of the samples that neither sense of the gate can keep. */
  function Dark(samples: seq<Obs>, signal: seq<Obs>, tolerance: int): seq<real> {
    if samples == [] then []
    else
      Dark(samples[..|samples| - 1], signal, tolerance)
      + if Unseen(samples, signal, tolerance) then [samples[|samples| - 1].value] else []
  }

  /** A 0/1 signal, however recorded, splits a series three ways: kept while on, kept while off, and never seen. */
  lemma {:induction false} GatesPartition(samples: seq<Obs>, signal: seq<Obs>, tolerance: int)
    requires forall k :: 0 <= k < |signal| ==> signal[k].value == 0.0 || signal[k].value == 1.0
    ensures var on, off := Kept(samples, Some(Gating(signal, tolerance, 1.0))), Kept(samples, Some(Gating(signal, tolerance, 0.0)));
            multiset(on) + multiset(off) + multiset(Dark(samples, signal, tolerance)) == multiset(Kept(samples, None))
  {
    if samples != [] {
      GatesPartition(samples[..|samples| - 1], signal, tolerance);
      LastIsSplit(samples, signal, tolerance);
    }
  }

  lemma LastIsSplit(samples: seq<Obs>, signal: seq<Obs>, tolerance: int)
    requires samples != []
    requires forall k :: 0 <= k < |signal| ==> signal[k].value == 0.0 || signal[k].value == 1.0
    ensures var on, off, dark := Passes(samples, Some(Gating(signal, tolerance, 1.0))), Passes(samples, Some(Gating(signal, tolerance, 0.0))),
                                 Unseen(samples, signal, tolerance);
            (on || off || dark) && !(on && off) && !(on && dark) && !(off && dark)
  {
  }

  /** On a signal that repeats no instant before its end, never seen is what it says: nothing recorded in reach. */
  lemma UnseenIsUnobserved(samples: seq<Obs>, signal: seq<Obs>, tolerance: int)
    requires Ordered(signal) && StallFree(signal) && Ordered(samples) && samples != []
    ensures Unseen(samples, signal, tolerance) <==> Unobserved(signal, tolerance, samples[|samples| - 1].at)
  {
    if signal != [] {
      StandIsNearest(signal, samples);
      NearestDecidesUnobserved(signal, tolerance, Stand(signal, samples), samples[|samples| - 1].at);
    }
  }

  // ----- the difference between two sensors -----

  datatype DeltaSummary = DeltaSummary(stats: Stats, unpaired: int, unpairedMinus: int, excluded: int)

  /** The pairs a delta is taken over. */
  function PairedDifferences(left: seq<Obs>, right: seq<Obs>, tolerance: int): (ds: seq<Obs>) {
    var links := Pairing.Walk(left, right, tolerance, 0, 0);
    Pairing.InRangeOfWalk(left, right, tolerance);
    Pairing.Differences(left, right, links)
  }

  method Delta(left: seq<Obs>, right: seq<Obs>, tolerance: int, gating: Option<Gating>)
    returns (result: Result<Option<DeltaSummary>, Pairing.PairingError>)
    ensures result.Err? <==> tolerance < 0
    ensures tolerance >= 0 ==>
              var kept := Kept(PairedDifferences(left, right, tolerance), gating);
              && (result.value.None? <==> kept == [])
              && (result.value.Some? ==>
                    var d := result.value.value;
                    && d.stats == StatsOf(kept)
                    && d.stats.count + d.excluded + d.unpaired == |left|
                    && d.stats.count + d.excluded + d.unpairedMinus == |right|
                    && d.excluded == |PairedDifferences(left, right, tolerance)| - |kept|
                    && d.excluded >= 0 && d.unpaired >= 0 && d.unpairedMinus >= 0)
  {
    var pairs := Pairing.Pairs(left, right, tolerance);
    if pairs.Err? {
      return Err(pairs.error);
    }
    PairsAreNoMore(left, right, tolerance);
    var values := Admitted(pairs.value, gating);
    if values == [] {
      return Ok(None);
    }
    var paired := |pairs.value|;
    return Ok(Some(DeltaSummary(StatsOf(values), |left| - paired, |right| - paired, paired - |values|)));
  }

  lemma PairsAreNoMore(left: seq<Obs>, right: seq<Obs>, tolerance: int)
    ensures var ds := PairedDifferences(left, right, tolerance); |ds| <= |left| && |ds| <= |right|
  {
    Pairing.WalkIsMatching(left, right, tolerance);
  }

  /** Pairs keep their left series' order, so gating them is exact under the same condition as gating samples. */
  lemma {:induction false} PairsAreGatedGlobally(left: seq<Obs>, right: seq<Obs>, tolerance: int, g: Gating)
    requires Ordered(left) && Ordered(g.signal) && StallFree(g.signal)
    ensures Kept(PairedDifferences(left, right, tolerance), Some(g)) == GloballyKept(PairedDifferences(left, right, tolerance), g)
  {
    PairsAscend(left, right, tolerance);
    KeptIsGlobal(PairedDifferences(left, right, tolerance), g);
  }

  lemma PairsAscend(left: seq<Obs>, right: seq<Obs>, tolerance: int)
    requires Ordered(left)
    ensures Ordered(PairedDifferences(left, right, tolerance))
  {
    var links := Pairing.Walk(left, right, tolerance, 0, 0);
    Pairing.WalkIsSound(left, right, tolerance, 0, 0);
    assert forall a, b :: 0 <= a < b < |links| ==> links[a].l < links[b].l;
  }
}
