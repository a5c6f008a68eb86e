/** The forward-only state gate: did a signal hold an expected value at a given instant? */
module StateGates {
  import opened Basics

  // ----- what an answer means, by global search -----

  /** `n` is the nearest observation to `t`, the earlier one on a tie. */
  ghost predicate IsNearest(obs: seq<Obs>, t: int, n: nat) {
    && n < |obs|
    && (forall k :: 0 <= k < |obs| ==> Dist(obs[n].at, t) <= Dist(obs[k].at, t))
    && (forall k :: 0 <= k < n ==> Dist(obs[n].at, t) < Dist(obs[k].at, t))
  }

  lemma NearestIsUnique(obs: seq<Obs>, t: int, m: nat, n: nat)
    requires IsNearest(obs, t, m) && IsNearest(obs, t, n)
    ensures m == n
  {
    assert Dist(obs[m].at, t) <= Dist(obs[n].at, t) <= Dist(obs[m].at, t);
  }

  /** The signal was seen holding `expected` at `t`: its nearest observation is in reach and says so. */
  ghost predicate Holds(obs: seq<Obs>, tolerance: int, expected: real, t: int) {
    exists n: nat :: IsNearest(obs, t, n) && Dist(obs[n].at, t) <= tolerance && obs[n].value == expected
  }

  /** The signal was not seen at all around `t`. */
  ghost predicate Unobserved(obs: seq<Obs>, tolerance: int, t: int) {
    forall k :: 0 <= k < |obs| ==> Dist(obs[k].at, t) > tolerance
  }

  // ----- what the gate computes, from its position -----

  function Answer(obs: seq<Obs>, tolerance: int, expected: real, q: nat, t: int): bool {
    q < |obs| && Dist(obs[q].at, t) <= tolerance && obs[q].value == expected
  }

  /** The answers to a sequence of questions, asked of one gate. */
  function Answers(obs: seq<Obs>, tolerance: int, expected: real, p: nat, asked: seq<int>): (answers: seq<bool>)
    requires p <= |obs|
    ensures |answers| == |asked|
    decreases |asked|
  {
    if asked == [] then []
    else
      var q := Seek(obs, p, asked[0]);
      [Answer(obs, tolerance, expected, q, asked[0])] + Answers(obs, tolerance, expected, q, asked[1..])
  }

  /** No instant recorded twice, except at the very end of the series. */
  ghost predicate StallFree(obs: seq<Obs>) {
    forall k :: 0 <= k < |obs| - 1 && obs[k].at == obs[k + 1].at ==> obs[k].at == obs[|obs| - 1].at
  }

  ghost predicate Ascending(asked: seq<int>) {
    forall i, j :: 0 <= i < j < |asked| ==> asked[i] <= asked[j]
  }

  /** Every observation before `p` is farther from `t` than observation `p` is. */
  ghost predicate NotYetPassed(obs: seq<Obs>, p: nat, t: int) {
    p < |obs| ==> forall k :: 0 <= k < p ==> Dist(obs[p].at, t) < Dist(obs[k].at, t)
  }

  lemma NextIsNotNearer(obs: seq<Obs>, p: nat, t: int)
    requires Ordered(obs) && StallFree(obs) && p < |obs|
    requires p + 1 < |obs| ==> Dist(obs[p].at, t) <= Dist(obs[p + 1].at, t)
    ensures forall k :: p <= k < |obs| ==> Dist(obs[p].at, t) <= Dist(obs[k].at, t)
  {
    forall k | p <= k < |obs|
      ensures Dist(obs[p].at, t) <= Dist(obs[k].at, t)
    {
      if p < k {
        assert obs[p].at <= obs[p + 1].at <= obs[k].at <= obs[|obs| - 1].at;
      }
    }
  }

  lemma {:induction false} SeekFindsNearest(obs: seq<Obs>, p: nat, t: int)
    requires Ordered(obs) && StallFree(obs) && p < |obs| && NotYetPassed(obs, p, t)
    ensures IsNearest(obs, t, Seek(obs, p, t))
    decreases |obs| - p
  {
    if p + 1 < |obs| && Dist(obs[p + 1].at, t) < Dist(obs[p].at, t) {
      SeekFindsNearest(obs, p + 1, t);
    } else {
      NextIsNotNearer(obs, p, t);
    }
  }

  /** Walking forward only is safe while questions ascend. */
  lemma StillNotPassed(obs: seq<Obs>, p: nat, t: int, later: int)
    requires Ordered(obs) && p < |obs| && NotYetPassed(obs, p, t) && t <= later
    ensures NotYetPassed(obs, p, later)
  {
  }

  lemma AnswerIsGlobal(obs: seq<Obs>, tolerance: int, expected: real, q: nat, t: int)
    requires IsNearest(obs, t, q)
    ensures Answer(obs, tolerance, expected, q, t) <==> Holds(obs, tolerance, expected, t)
  {
    if Holds(obs, tolerance, expected, t) {
      var n: nat :| IsNearest(obs, t, n) && Dist(obs[n].at, t) <= tolerance && obs[n].value == expected;
      NearestIsUnique(obs, t, n, q);
    }
  }

  /** Asked in ascending order, the one-pass gate answers every question as a global search would. */
  lemma {:induction false} GateAnswersAsGlobalSearch(obs: seq<Obs>, tolerance: int, expected: real, p: nat, asked: seq<int>)
    requires Ordered(obs) && StallFree(obs) && p <= |obs| && Ascending(asked)
    requires p == |obs| ==> obs == []
    requires asked != [] ==> NotYetPassed(obs, p, asked[0])
    ensures forall i :: 0 <= i < |asked| ==>
              (Answers(obs, tolerance, expected, p, asked)[i] <==> Holds(obs, tolerance, expected, asked[i]))
    decreases |asked|
  {
    if asked != [] {
      var t, rest := asked[0], asked[1..];
      var q := Seek(obs, p, t);
      assert forall i, j :: 0 <= i < j < |rest| ==> rest[i] == asked[i + 1] && rest[j] == asked[j + 1];
      if p < |obs| {
        SeekFindsNearest(obs, p, t);
        AnswerIsGlobal(obs, tolerance, expected, q, t);
        if rest != [] {
          StillNotPassed(obs, q, t, rest[0]);
        }
      }
      GateAnswersAsGlobalSearch(obs, tolerance, expected, q, rest);
      forall i | 0 <= i < |asked|
        ensures Answers(obs, tolerance, expected, p, asked)[i] <==> Holds(obs, tolerance, expected, asked[i])
      {
        if i > 0 {
          assert asked[i] == rest[i - 1];
        }
      }
    }
  }

  /** The exact condition on the recording: the forward walk finds the nearest observation of every instant
      if and only if no instant is recorded twice before the end of the series. */
  lemma {:induction false} SeekIsExactWhenStallFree(obs: seq<Obs>)
    requires Ordered(obs) && obs != []
    ensures StallFree(obs) <==> forall t :: IsNearest(obs, t, Seek(obs, 0, t))
  {
    if StallFree(obs) {
      forall t ensures IsNearest(obs, t, Seek(obs, 0, t)) {
        SeekFindsNearest(obs, 0, t);
      }
    } else {
      StallMissesTheLast(obs);
    }
  }

  /** A walk held up by a repeated instant never comes to the instant of the last observation. */
  lemma {:induction false} StallMissesTheLast(obs: seq<Obs>)
    requires Ordered(obs) && !StallFree(obs)
    ensures obs != [] && obs[Seek(obs, 0, obs[|obs| - 1].at)].at < obs[|obs| - 1].at
    ensures !IsNearest(obs, obs[|obs| - 1].at, Seek(obs, 0, obs[|obs| - 1].at))
  {
    var k :| 0 <= k < |obs| - 1 && obs[k].at == obs[k + 1].at && obs[k].at != obs[|obs| - 1].at;
    StopsBefore(obs, 0, k, obs[|obs| - 1].at);
  }

  ghost predicate AnswersGlobally(obs: seq<Obs>, tolerance: int, expected: real, t: int) {
    Answer(obs, tolerance, expected, Seek(obs, 0, t), t) <==> Holds(obs, tolerance, expected, t)
  }

  /** And so for the answers: every question of a fresh gate gets the answer of the global search, whatever the tolerance
      and the expected value, under exactly the same condition. */
  lemma GateIsExactWhenStallFree(obs: seq<Obs>)
    requires Ordered(obs)
    ensures StallFree(obs) <==> forall tolerance, expected, t :: AnswersGlobally(obs, tolerance, expected, t)
  {
    if StallFree(obs) {
      forall tolerance, expected, t ensures AnswersGlobally(obs, tolerance, expected, t) {
        if obs != [] {
          SeekFindsNearest(obs, 0, t);
          AnswerIsGlobal(obs, tolerance, expected, Seek(obs, 0, t), t);
        }
      }
    } else {
      var t, _ := StallGivesAWrongAnswer(obs);
    }
  }

  lemma StallGivesAWrongAnswer(obs: seq<Obs>) returns (t: int, expected: real)
    requires Ordered(obs) && !StallFree(obs)
    ensures !AnswersGlobally(obs, 0, expected, t)
  {
    t := obs[|obs| - 1].at;
    StallMissesTheLast(obs);
    NearestExists(obs, t);
    var n: nat :| IsNearest(obs, t, n);
    assert Dist(obs[n].at, t) <= Dist(obs[|obs| - 1].at, t) == 0;
    expected := obs[n].value;
    assert Holds(obs, 0, expected, t);
  }

  lemma {:induction false} StopsBefore(obs: seq<Obs>, p: nat, k: nat, t: int)
    requires Ordered(obs) && p <= k && k + 1 < |obs| && obs[k].at == obs[k + 1].at
    ensures Seek(obs, p, t) <= k
    decreases k - p
  {
    if p < k {
      StopsBefore(obs, p + 1, k, t);
    }
  }

  lemma {:induction false} NearestExists(obs: seq<Obs>, t: int)
    requires obs != []
    ensures exists n: nat :: IsNearest(obs, t, n)
  {
    var l := |obs| - 1;
    if l == 0 {
      assert IsNearest(obs, t, 0);
    } else {
      var init := obs[..l];
      NearestExists(init, t);
      var n: nat :| IsNearest(init, t, n);
      assert forall k :: 0 <= k < l ==> init[k] == obs[k];
      assert IsNearest(obs, t, if Dist(obs[l].at, t) < Dist(obs[n].at, t) then l else n);
    }
  }

  /** Moments of any 0/1 signal are asserted, not asserted, or unobserved: always exactly one of the three. */
  lemma MomentsPartition(obs: seq<Obs>, tolerance: int, t: int)
    requires forall k :: 0 <= k < |obs| ==> obs[k].value == 0.0 || obs[k].value == 1.0
    ensures var on, off, dark := Holds(obs, tolerance, 1.0, t), Holds(obs, tolerance, 0.0, t), Unobserved(obs, tolerance, t);
            (on || off || dark) && !(on && off) && !(on && dark) && !(off && dark)
  {
    if obs != [] {
      NearestExists(obs, t);
      var n: nat :| IsNearest(obs, t, n);
      AnswerIsGlobal(obs, tolerance, 1.0, n, t);
      AnswerIsGlobal(obs, tolerance, 0.0, n, t);
      NearestDecidesUnobserved(obs, tolerance, n, t);
    }
  }

  lemma NearestDecidesUnobserved(obs: seq<Obs>, tolerance: int, n: nat, t: int)
    requires IsNearest(obs, t, n)
    ensures Unobserved(obs, tolerance, t) <==> Dist(obs[n].at, t) > tolerance
  {
    if !Unobserved(obs, tolerance, t) {
      var k :| 0 <= k < |obs| && Dist(obs[k].at, t) <= tolerance;
      assert Dist(obs[n].at, t) <= Dist(obs[k].at, t);
    }
  }

  lemma StrictIsStallFree(obs: seq<Obs>)
    requires StrictlyIncreasing(obs)
    ensures Ordered(obs) && StallFree(obs)
  {
    assert forall k :: 0 <= k < |obs| - 1 ==> obs[k].at < obs[k + 1].at;
  }

  // ----- the object -----

  class StateGate {
    const observations: seq<Obs>
    const tolerance: int
    const expected: real
    var current: Option<Obs>
    var upcoming: Option<Obs>
    var cursor: nat

    /** Which observation `current` is. */
    ghost var position: nat

    ghost predicate Valid()
      reads this
    {
      && position <= |observations|
      && (position == |observations| ==> observations == [])
      && current == At(observations, position)
      && upcoming == At(observations, position + 1)
      && cursor == position + 2
    }

    constructor (observations: seq<Obs>, tolerance: int, expected: real)
      ensures Valid() && position == 0
      ensures this.observations == observations && this.tolerance == tolerance && this.expected == expected
    {
      this.observations, this.tolerance, this.expected := observations, tolerance, expected;
      current, upcoming, cursor, position := At(observations, 0), At(observations, 1), 2, 0;
    }

    method Admits(microseconds: int) returns (admitted: bool)
      requires Valid()
      modifies this
      ensures Valid() && position == Seek(observations, old(position), microseconds)
      ensures admitted == Answer(observations, tolerance, expected, position, microseconds)
    {
      while upcoming.Some? && current.Some? && Dist(upcoming.value.at, microseconds) < Dist(current.value.at, microseconds)
        invariant Valid()
        invariant Seek(observations, position, microseconds) == Seek(observations, old(position), microseconds)
        decreases |observations| - position
      {
        current, upcoming, cursor := upcoming, At(observations, cursor), cursor + 1;
        position := position + 1;
      }
      if current.None? {
        return false;
      }
      if Dist(current.value.at, microseconds) > tolerance {
        return false;
      }
      return current.value.value == expected;
    }
  }
}
