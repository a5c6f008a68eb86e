/** How far the rest between operations reaches: the writes confirmed on the bus, not only those on record. */
module BusSpacing {
  import opened Basics
  import opened Control
  import opened ControlProtocol

  /** An operation on record at or after the moment: what keeps the relay at rest from then on. */
  predicate Restrained(rows: seq<Record>, target: string, at: int) {
    LastApplied(rows, target).Some? && LastApplied(rows, target).value >= at
  }

  /** The lock holder has confirmed this write and not yet recorded it. */
  predicate UnderWay(s: State, w: BusWrite) {
    && s.holder.Some? && (s.holder.value.stage.Operated? || s.holder.value.stage.Noted?)
    && s.holder.value.command == w.command && s.holder.value.stage.now == w.now
  }

  /** What can have become of a confirmed write. */
  ghost predicate Traced(s: State, w: BusWrite) {
    w.command.id in s.interrupted || UnderWay(s, w) || Restrained(s.rows, w.command.target, w.now)
  }

  /** Two confirmed writes of one relay. */
  predicate Rivals(v: BusWrite, w: BusWrite) {
    v.outcome.Confirmed? && w.outcome.Confirmed? && v.command.target == w.command.target
  }

  predicate RestedBetween(policy: Policy, v: BusWrite, w: BusWrite) {
    w.now - v.now >= policy.Minimum(v.command.target)
  }

  ghost predicate AllTraced(s: State) {
    forall n :: 0 <= n < |s.bus| && s.bus[n].outcome.Confirmed? ==> Traced(s, s.bus[n])
  }

  ghost predicate Spaced(policy: Policy, s: State) {
    forall i, j :: 0 <= i < j < |s.bus| && Rivals(s.bus[i], s.bus[j]) && s.bus[i].command.id !in s.interrupted ==>
      RestedBetween(policy, s.bus[i], s.bus[j])
  }

  /** Nothing reaches the bus unless control is enabled, a transport is there, and the whitelist names the relay. */
  ghost predicate Permitted(policy: Policy, hasTransport: bool, s: State) {
    && (s.bus != [] || (s.holder.Some? && !s.holder.value.stage.Entered?) ==> policy.enabled && hasTransport)
    && (s.holder.Some? && !s.holder.value.stage.Entered? ==> Listed(policy, s.holder.value.command.target))
    && (forall n :: 0 <= n < |s.bus| ==> Listed(policy, s.bus[n].command.target))
  }

  ghost predicate BusInv(policy: Policy, hasTransport: bool, s: State) {
    Inv(policy, s) && AllTraced(s) && Spaced(policy, s) && Permitted(policy, hasTransport, s)
  }

  // ----- every step keeps them -----

  lemma {:induction false} RestrainedStays(policy: Policy, hasTransport: bool, s: State, e: Event, target: string, at: int)
    requires Enabled(policy, hasTransport, s, e) && Inv(policy, s) && Restrained(s.rows, target, at)
    ensures Restrained(Next(policy, hasTransport, s, e).rows, target, at)
  {
    var added := Added(policy, hasTransport, s, e);
    RowsGrow(policy, hasTransport, s, e);
    if added == [] {
      assert Next(policy, hasTransport, s, e).rows == s.rows;
    } else {
      assert added == [added[0]];
      LastAppliedAfter(s.rows, added[0], target);
    }
  }

  /** What is on record once the holder's confirmed write is recorded. */
  lemma {:induction false} RecordingRestrains(policy: Policy, hasTransport: bool, s: State)
    requires Enabled(policy, hasTransport, s, RecordResult) && Inv(policy, s) && s.holder.value.stage.Noted?
    ensures var h := s.holder.value;
            Restrained(Next(policy, hasTransport, s, RecordResult).rows, h.command.target, h.stage.now)
  {
    var added := Added(policy, hasTransport, s, RecordResult);
    RowsGrow(policy, hasTransport, s, RecordResult);
    assert added == [added[0]];
    LastAppliedAfter(s.rows, added[0], s.holder.value.command.target);
  }

  lemma {:induction false} InterruptedGrow(policy: Policy, hasTransport: bool, s: State, e: Event)
    requires Enabled(policy, hasTransport, s, e)
    ensures s.interrupted <= Next(policy, hasTransport, s, e).interrupted
  {
  }

  lemma {:induction false} TracedStays(policy: Policy, hasTransport: bool, s: State, e: Event, w: BusWrite)
    requires Enabled(policy, hasTransport, s, e) && Inv(policy, s) && Traced(s, w)
    ensures Traced(Next(policy, hasTransport, s, e), w)
  {
    InterruptedGrow(policy, hasTransport, s, e);
    if Restrained(s.rows, w.command.target, w.now) {
      RestrainedStays(policy, hasTransport, s, e, w.command.target, w.now);
    } else if UnderWay(s, w) && e.RecordResult? {
      RecordingRestrains(policy, hasTransport, s);
    }
  }

  /** A write about to go out is judged late enough for every relay at rest. */
  lemma RestedWhenRestrained(policy: Policy, s: State, v: BusWrite)
    requires Paced(policy, s) && s.holder.Some? && !s.holder.value.stage.Entered?
    requires v.command.target == s.holder.value.command.target && Restrained(s.rows, v.command.target, v.now)
    ensures s.holder.value.stage.now - v.now >= policy.Minimum(v.command.target)
  {
  }

  lemma {:induction false} BusGrows(policy: Policy, hasTransport: bool, s: State, e: Event)
    requires Enabled(policy, hasTransport, s, e)
    ensures var bus := Next(policy, hasTransport, s, e).bus;
            bus == if e.Operate? then s.bus + [BusWrite(s.holder.value.command, |s.rows|, s.holder.value.stage.now, e.outcome)] else s.bus
  {
  }

  lemma {:induction false} AllTracedKept(policy: Policy, hasTransport: bool, s: State, e: Event)
    requires Enabled(policy, hasTransport, s, e) && Inv(policy, s) && AllTraced(s)
    ensures AllTraced(Next(policy, hasTransport, s, e))
  {
    var s' := Next(policy, hasTransport, s, e);
    BusGrows(policy, hasTransport, s, e);
    forall n | 0 <= n < |s'.bus| && s'.bus[n].outcome.Confirmed? ensures Traced(s', s'.bus[n]) {
      if n < |s.bus| {
        assert s'.bus[n] == s.bus[n];
        TracedStays(policy, hasTransport, s, e, s.bus[n]);
      } else {
        assert UnderWay(s', s'.bus[n]);
      }
    }
  }

  lemma {:induction false} SpacedKept(policy: Policy, hasTransport: bool, s: State, e: Event)
    requires Enabled(policy, hasTransport, s, e) && BusInv(policy, hasTransport, s)
    ensures Spaced(policy, Next(policy, hasTransport, s, e))
  {
    var s' := Next(policy, hasTransport, s, e);
    BusGrows(policy, hasTransport, s, e);
    InterruptedGrow(policy, hasTransport, s, e);
    forall i, j | 0 <= i < j < |s'.bus| && Rivals(s'.bus[i], s'.bus[j]) && s'.bus[i].command.id !in s'.interrupted
      ensures RestedBetween(policy, s'.bus[i], s'.bus[j])
    {
      assert s'.bus[i] == s.bus[i];
      if j < |s.bus| {
        assert s'.bus[j] == s.bus[j];
      } else {
        assert Traced(s, s.bus[i]);
        RestedWhenRestrained(policy, s, s.bus[i]);
      }
    }
  }

  lemma {:induction false} PermittedKept(policy: Policy, hasTransport: bool, s: State, e: Event)
    requires Enabled(policy, hasTransport, s, e) && Permitted(policy, hasTransport, s)
    ensures Permitted(policy, hasTransport, Next(policy, hasTransport, s, e))
  {
    BusGrows(policy, hasTransport, s, e);
    if e.Judge? {
      LookupIsEntry(policy, s.holder.value.command.target, Target("", 0, 0, 0));
    }
  }

  lemma {:induction false} BusInvKept(policy: Policy, hasTransport: bool, s: State, e: Event)
    requires Enabled(policy, hasTransport, s, e) && BusInv(policy, hasTransport, s)
    ensures BusInv(policy, hasTransport, Next(policy, hasTransport, s, e))
  {
    InvKept(policy, hasTransport, s, e);
    AllTracedKept(policy, hasTransport, s, e);
    SpacedKept(policy, hasTransport, s, e);
    PermittedKept(policy, hasTransport, s, e);
  }

  lemma {:induction false} BusInvOverRuns(policy: Policy, hasTransport: bool, s: State, events: seq<Event>, s': State)
    requires BusInv(policy, hasTransport, s) && Runs(policy, hasTransport, s, events, s')
    ensures BusInv(policy, hasTransport, s')
    decreases |events|
  {
    if events != [] {
      BusInvKept(policy, hasTransport, s, events[0]);
      BusInvOverRuns(policy, hasTransport, Next(policy, hasTransport, s, events[0]), events[1..], s');
    }
  }

  lemma {:induction false} ReachableBusInv(policy: Policy, hasTransport: bool, s: State)
    requires Reachable(policy, hasTransport, s)
    ensures BusInv(policy, hasTransport, s)
  {
    var events :| Runs(policy, hasTransport, INITIAL, events, s);
    BusInvOverRuns(policy, hasTransport, INITIAL, events, s);
  }

  // ----- what the guard promises the relay -----

  /** Confirmed writes of a relay stand at least its minimum interval apart, unless the earlier execution was interrupted. */
  lemma {:induction false} ConfirmedWritesAreSpaced(policy: Policy, hasTransport: bool, s: State, i: nat, j: nat)
    requires Reachable(policy, hasTransport, s) && i < j < |s.bus| && Rivals(s.bus[i], s.bus[j])
    requires s.bus[i].command.id !in s.interrupted
    ensures s.bus[j].now - s.bus[i].now >= policy.Minimum(s.bus[i].command.target)
  {
    ReachableBusInv(policy, hasTransport, s);
    assert RestedBetween(policy, s.bus[i], s.bus[j]);
  }

  /** Only relays on the whitelist are ever written to, and only while control is enabled and a transport is there. */
  lemma {:induction false} OnlyListedRelaysAreWritten(policy: Policy, hasTransport: bool, s: State, n: nat)
    requires Reachable(policy, hasTransport, s) && n < |s.bus|
    ensures policy.enabled && hasTransport
    ensures exists k :: 0 <= k < |policy.targets| && policy.targets[k].id == s.bus[n].command.target
  {
    ReachableBusInv(policy, hasTransport, s);
    assert Listed(policy, s.bus[n].command.target);
  }

  /** Every later confirmed write of the relay, from position `from` on, respects its rest after `w`. */
  ghost predicate RestHoldsFrom(policy: Policy, from: nat, s: State, w: BusWrite) {
    forall j :: from <= j < |s.bus| && Rivals(w, s.bus[j]) ==> RestedBetween(policy, w, s.bus[j])
  }

  lemma {:induction false} RestHoldsOverRuns(policy: Policy, hasTransport: bool, s: State, events: seq<Event>, s': State,
                                             from: nat, w: BusWrite)
    requires Inv(policy, s) && Runs(policy, hasTransport, s, events, s')
    requires Restrained(s.rows, w.command.target, w.now) && RestHoldsFrom(policy, from, s, w)
    ensures RestHoldsFrom(policy, from, s', w)
    decreases |events|
  {
    if events != [] {
      var e := events[0];
      var next := Next(policy, hasTransport, s, e);
      InvKept(policy, hasTransport, s, e);
      RestrainedStays(policy, hasTransport, s, e, w.command.target, w.now);
      RestHoldsOneStep(policy, hasTransport, s, e, from, w);
      RestHoldsOverRuns(policy, hasTransport, next, events[1..], s', from, w);
    }
  }

  lemma {:induction false} RestHoldsOneStep(policy: Policy, hasTransport: bool, s: State, e: Event, from: nat, w: BusWrite)
    requires Enabled(policy, hasTransport, s, e) && Inv(policy, s)
    requires Restrained(s.rows, w.command.target, w.now) && RestHoldsFrom(policy, from, s, w)
    ensures RestHoldsFrom(policy, from, Next(policy, hasTransport, s, e), w)
  {
    var s' := Next(policy, hasTransport, s, e);
    BusGrows(policy, hasTransport, s, e);
    forall j | from <= j < |s'.bus| && Rivals(w, s'.bus[j]) ensures RestedBetween(policy, w, s'.bus[j]) {
      if j < |s.bus| {
        assert s'.bus[j] == s.bus[j];
      } else {
        RestedWhenRestrained(policy, s, w);
      }
    }
  }

  // ----- writing at once -----

  lemma LongerThanAll(used: set<string>) returns (n: nat)
    ensures forall id :: id in used ==> |id| < n
  {
    if used == {} {
      n := 0;
    } else {
      var id :| id in used;
      var m := LongerThanAll(used - {id});
      n := if m > |id| then m else |id| + 1;
    }
  }

  lemma FreshName(used: set<string>) returns (id: string)
    ensures id !in used && !EndsInIssued(id)
  {
    var n := LongerThanAll(used);
    id := seq(n + 1, _ => 'a');
    assert id[|id| - 1] == 'a' && ISSUED_SUFFIX[|ISSUED_SUFFIX| - 1] == 'd';
    assert |id| >= |ISSUED_SUFFIX| ==> id[|id| - |ISSUED_SUFFIX|..][|ISSUED_SUFFIX| - 1] == id[|id| - 1];
  }

  lemma {:induction false} RunsConcatenate(policy: Policy, hasTransport: bool, s: State, first: seq<Event>, m: State,
                                           second: seq<Event>, s': State)
    requires Runs(policy, hasTransport, s, first, m) && Runs(policy, hasTransport, m, second, s')
    ensures Runs(policy, hasTransport, s, first + second, s')
    decreases |first|
  {
    if first == [] {
      assert first + second == second;
    } else {
      RunsConcatenate(policy, hasTransport, Next(policy, hasTransport, s, first[0]), first[1..], m, second, s');
      assert (first + second)[1..] == first[1..] + second;
    }
  }

  ghost predicate Leads(policy: Policy, s: State, s': State) {
    exists events :: Runs(policy, true, s, events, s')
  }

  lemma LeadsOn(policy: Policy, s: State, m: State, s': State)
    requires Leads(policy, s, m) && Leads(policy, m, s')
    ensures Leads(policy, s, s')
  {
    var first :| Runs(policy, true, s, first, m);
    var second :| Runs(policy, true, m, second, s');
    RunsConcatenate(policy, true, s, first, m, second, s');
  }

  lemma InvOnwards(policy: Policy, s: State, s': State)
    requires Inv(policy, s) && Leads(policy, s, s')
    ensures Inv(policy, s')
  {
    var events :| Runs(policy, true, s, events, s');
    InvOverRuns(policy, true, s, events, s');
  }

  /** A guard that remembers nothing in memory judges by the journal alone, and lets a rested relay be written at once. */
  lemma {:induction false} WriteAtOnce(policy: Policy, s: State, c: Command, now: int) returns (s': State)
    requires Quiet(s) && s.cache == map[] && Named(s) && Fresh(s) && c.id !in s.used && !EndsInIssued(c.id)
    requires policy.enabled && policy.Lookup(c.target).Some? && MayOperate(policy, s.rows, c.target, now)
    ensures Leads(policy, s, s') && s'.used == s.used + {c.id}
    ensures s'.bus == s.bus + [BusWrite(c, |s.rows| + 1, now, Confirmed)] && s'.rows == s.rows + [IntentOf(c, now)]
  {
    var judged := FirstThree(policy, true, s, 0, c, now, [RecordIntent, Operate(Confirmed)]);
    NewNameIsUnrecorded(s, c.id);
    var intended := Next(policy, true, judged, RecordIntent);
    s' := Next(policy, true, intended, Operate(Confirmed));
    AfterOne(policy, true, judged, RecordIntent, [Operate(Confirmed)]);
    AfterOne(policy, true, intended, Operate(Confirmed), []);
    assert [RecordIntent, Operate(Confirmed)] == [RecordIntent] + [Operate(Confirmed)];
    assert [Operate(Confirmed)] == [Operate(Confirmed)] + [];
    var events := [Submit(0, c), Acquire(0), Judge(now)] + [RecordIntent, Operate(Confirmed)];
    AfterRuns(policy, true, s, events, s');
  }

  /** The failing run: the relay moves, the process dies before it says so, and the next one moves the relay again. */
  lemma {:induction false} WriteAgainAfterCrash(policy: Policy, s: State, c: Command, now: int) returns (s': State)
    requires Inv(policy, s) && c.id !in s.used && !EndsInIssued(c.id)
    requires policy.enabled && policy.Lookup(c.target).Some? && MayOperate(policy, s.rows, c.target, now)
    ensures Leads(policy, s, s')
    ensures s'.bus == s.bus + [BusWrite(c, |s.rows| + 1, now, Confirmed)] && s'.rows == s.rows + [IntentOf(c, now)]
  {
    var crashed := Next(policy, true, s, Crash);
    InvKept(policy, true, s, Crash);
    s' := WriteAtOnce(policy, crashed, c, now);
    CrashLeads(policy, s);
    LeadsOn(policy, s, crashed, s');
  }

  lemma {:induction false} CrashLeads(policy: Policy, s: State)
    ensures Leads(policy, s, Next(policy, true, s, Crash))
  {
    assert [Crash][1..] == [];
    assert Runs(policy, true, s, [Crash], Next(policy, true, s, Crash));
  }

  lemma InitialInv(policy: Policy)
    ensures Inv(policy, INITIAL)
  {
  }

  /** A state with nothing recorded, remembered or under way. */
  ghost predicate Untouched(policy: Policy, s: State) {
    Inv(policy, s) && Quiet(s) && s.cache == map[] && s.rows == [] && s.bus == []
  }

  lemma {:induction false} NothingForbidsOperation(policy: Policy, rows: seq<Record>, target: string, now: int)
    requires rows == []
    ensures MayOperate(policy, rows, target, now)
  {
  }

  lemma {:induction false} IntentsAllowOperation(policy: Policy, c: Command, now: int, rows: seq<Record>)
    requires rows == [IntentOf(c, now)]
    ensures MayOperate(policy, rows, c.target, now)
  {
    LastAppliedAfter([], IntentOf(c, now), c.target);
    assert rows == [] + [IntentOf(c, now)];
  }

  lemma {:induction false} FirstOfTwo(policy: Policy, s: State, first: Command, now: int) returns (m: State)
    requires Untouched(policy, s) && first.id !in s.used && !EndsInIssued(first.id)
    requires policy.enabled && policy.Lookup(first.target).Some?
    ensures Leads(policy, s, m) && m.used == s.used + {first.id}
    ensures m.rows == [IntentOf(first, now)] && m.bus == [BusWrite(first, 1, now, Confirmed)]
  {
    NothingForbidsOperation(policy, s.rows, first.target, now);
    m := WriteAtOnce(policy, s, first, now);
  }

  lemma {:induction false} SecondOfTwo(policy: Policy, m: State, second: Command, now: int, r: Record, w: BusWrite) returns (s': State)
    requires Inv(policy, m) && second.id !in m.used && !EndsInIssued(second.id)
    requires policy.enabled && policy.Lookup(second.target).Some? && MayOperate(policy, m.rows, second.target, now)
    requires m.rows == [r] && m.bus == [w]
    ensures Leads(policy, m, s')
    ensures s'.rows == [r, IntentOf(second, now)] && s'.bus == [w, BusWrite(second, 2, now, Confirmed)]
  {
    s' := WriteAgainAfterCrash(policy, m, second, now);
  }

  /** For any relay that must rest, two commands and any moment: both writes confirmed at that one moment, neither on record. */
  lemma {:induction false} CrashDefeatsTheRest(policy: Policy, first: Command, second: Command, now: int) returns (s: State)
    requires policy.enabled && policy.Minimum(first.target) > 0 && first.target == second.target
    requires first.id != second.id && !EndsInIssued(first.id) && !EndsInIssued(second.id)
    ensures Reachable(policy, true, s) && s.rows == [IntentOf(first, now), IntentOf(second, now)]
    ensures s.bus == [BusWrite(first, 1, now, Confirmed), BusWrite(second, 2, now, Confirmed)]
  {
    InitialInv(policy);
    var m := FirstOfTwo(policy, INITIAL, first, now);
    InvOnwards(policy, INITIAL, m);
    IntentsAllowOperation(policy, first, now, m.rows);
    s := SecondOfTwo(policy, m, second, now, IntentOf(first, now), BusWrite(first, 1, now, Confirmed));
    LeadsOn(policy, INITIAL, m, s);
  }

  /** In every continuation, with any number of crashes, every later confirmed write respects the rest after `w`. */
  ghost predicate RestAlwaysHolds(policy: Policy, hasTransport: bool, s: State, w: BusWrite) {
    forall events, s' :: Runs(policy, hasTransport, s, events, s') ==> RestHoldsFrom(policy, |s.bus|, s', w)
  }

  lemma {:induction false} UnrecordedIsNotHeld(policy: Policy, s: State, w: BusWrite)
    requires Inv(policy, s) && policy.enabled && w.outcome.Confirmed? && policy.Minimum(w.command.target) > 0
    requires !Restrained(s.rows, w.command.target, w.now)
    ensures !RestAlwaysHolds(policy, true, s, w)
  {
    var id := FreshName(s.used);
    var c := Command(id, w.command.target, true, "");
    var now := w.now + policy.Minimum(c.target) - 1;
    var s' := WriteAgainAfterCrash(policy, s, c, now);
    var events :| Runs(policy, true, s, events, s');
    var late := s'.bus[|s.bus|];
    assert late == BusWrite(c, |s.rows| + 1, now, Confirmed);
    assert Rivals(w, late) && !RestedBetween(policy, w, late);
    assert !RestHoldsFrom(policy, |s.bus|, s', w);
  }

  /** The exact reach of the guard's memory: a confirmed write holds back every later one, in every continuation,
      if and only if an operation of the relay at or after it is on record. */
  lemma {:induction false} RestHoldsExactlyWhenRecorded(policy: Policy, hasTransport: bool, s: State, i: nat)
    requires Reachable(policy, hasTransport, s) && i < |s.bus| && s.bus[i].outcome.Confirmed?
    requires policy.Minimum(s.bus[i].command.target) > 0
    ensures Restrained(s.rows, s.bus[i].command.target, s.bus[i].now) <==> RestAlwaysHolds(policy, hasTransport, s, s.bus[i])
  {
    ReachableBusInv(policy, hasTransport, s);
    var w := s.bus[i];
    if Restrained(s.rows, w.command.target, w.now) {
      forall events, s' | Runs(policy, hasTransport, s, events, s') ensures RestHoldsFrom(policy, |s.bus|, s', w) {
        RestHoldsOverRuns(policy, hasTransport, s, events, s', |s.bus|, w);
      }
    } else {
      UnrecordedIsNotHeld(policy, s, w);
    }
  }

  /** An execution that was neither interrupted nor is under way has put its operation on record. */
  lemma {:induction false} CompletedWritesAreRecorded(policy: Policy, hasTransport: bool, s: State, i: nat)
    requires Reachable(policy, hasTransport, s) && i < |s.bus| && s.bus[i].outcome.Confirmed?
    requires s.bus[i].command.id !in s.interrupted && !UnderWay(s, s.bus[i])
    ensures Restrained(s.rows, s.bus[i].command.target, s.bus[i].now)
  {
    ReachableBusInv(policy, hasTransport, s);
    assert Traced(s, s.bus[i]);
  }
}
