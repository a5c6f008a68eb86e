/**
 * Processes sharing one serial segment, step by step: when does every completed exchange read its own answer?
 * Requests are numbered as they are written. A process whose lock is active enters the block only with the lock;
 * one whose lock is not enters regardless.
 */
module BusProtocol {
  import opened Basics

  /** `punctual`: an answer comes before its requester gives up, or never. */
  datatype Setting = Setting(active: seq<bool>, punctual: bool)

  datatype Phase =
    | Idle
    | Waiting
    | Inside(locked: bool)
    | Awaiting(locked: bool, request: nat)
    | Leaving(locked: bool)

  datatype Exchange = Exchange(process: nat, request: nat, answer: nat)

  /** `owed`: written requests the device may still answer. `line`: answers arrived and not yet read. */
  datatype State = State(phases: seq<Phase>, lock: Option<nat>, issued: nat, owed: set<nat>, line: seq<nat>, done: seq<Exchange>)

  datatype Event =
    | Enter(process: nat)
    | Acquire(process: nat)
    | Refuse(process: nat)
    | Send(process: nat)
    | FailToSend(process: nat)
    | Answer(request: nat)
    | Read(process: nat)
    | GiveUp(process: nat)
    | Leave(process: nat)

  function Initial(c: Setting): State {
    State(seq(|c.active|, _ => Idle), None, 0, {}, [], [])
  }

  predicate Enabled(c: Setting, s: State, e: Event) {
    match e
    case Enter(p) => p < |s.phases| && s.phases[p].Idle?
    case Acquire(p) => p < |s.phases| && s.phases[p].Waiting? && s.lock.None?
    case Refuse(p) => p < |s.phases| && s.phases[p].Waiting? && s.lock.Some?
    case Send(p) => p < |s.phases| && s.phases[p].Inside?
    case FailToSend(p) => p < |s.phases| && s.phases[p].Inside?
    case Answer(r) => r in s.owed
    case Read(p) => p < |s.phases| && s.phases[p].Awaiting? && s.line != []
    case GiveUp(p) => p < |s.phases| && s.phases[p].Awaiting? && s.line == []
    case Leave(p) => p < |s.phases| && s.phases[p].Leaving?
  }

  function Step(c: Setting, s: State, e: Event): State
    requires Enabled(c, s, e) && |s.phases| == |c.active|
  {
    match e
    case Enter(p) => s.(phases := s.phases[p := if c.active[p] then Waiting else Inside(false)])
    case Acquire(p) => s.(phases := s.phases[p := Inside(true)], lock := Some(p))
    case Refuse(p) => s.(phases := s.phases[p := Idle])
    case Send(p) =>
      s.(phases := s.phases[p := Awaiting(s.phases[p].locked, s.issued)], issued := s.issued + 1, owed := s.owed + {s.issued})
    case FailToSend(p) => s.(phases := s.phases[p := Leaving(s.phases[p].locked)])
    case Answer(r) => s.(owed := s.owed - {r}, line := s.line + [r])
    case Read(p) =>
      s.(phases := s.phases[p := Leaving(s.phases[p].locked)], line := s.line[1..],
         done := s.done + [Exchange(p, s.phases[p].request, s.line[0])])
    case GiveUp(p) =>
      s.(phases := s.phases[p := Leaving(s.phases[p].locked)],
         owed := if c.punctual then s.owed - {s.phases[p].request} else s.owed)
    case Leave(p) => s.(phases := s.phases[p := Idle], lock := if s.phases[p].locked then None else s.lock)
  }

  function Run(c: Setting, events: seq<Event>): (end: Option<State>)
    ensures end.Some? ==> |end.value.phases| == |c.active|
  {
    if events == [] then Some(Initial(c))
    else
      var last := events[|events| - 1];
      var before := Run(c, events[..|events| - 1]);
      if before.Some? && Enabled(c, before.value, last) then Some(Step(c, before.value, last)) else None
  }

  ghost predicate Reachable(c: Setting, s: State) {
    exists events :: Run(c, events) == Some(s)
  }

  // ----- what coordination promises -----

  ghost predicate OwnAnswers(s: State) {
    forall k :: 0 <= k < |s.done| ==> s.done[k].answer == s.done[k].request
  }

  predicate InBlock(phase: Phase) {
    phase.Inside? || phase.Awaiting? || phase.Leaving?
  }

  predicate Coordinated(c: Setting) {
    c.punctual && forall p :: 0 <= p < |c.active| ==> c.active[p]
  }

  /** The lock is held by exactly the process that is inside the block. */
  ghost predicate LockIsHonest(s: State) {
    && (forall p :: 0 <= p < |s.phases| && InBlock(s.phases[p]) ==> s.phases[p].locked && s.lock == Some(p))
    && (s.lock.Some? ==> s.lock.value < |s.phases| && InBlock(s.phases[s.lock.value]))
  }

  /** Whatever is pending on the bus, asked or answered, is the lock holder's own request. */
  ghost predicate BusIsTheHolders(s: State) {
    forall r :: r in s.owed || r in s.line ==>
      s.lock.Some? && s.lock.value < |s.phases| && s.phases[s.lock.value] == Awaiting(true, r)
  }

  /** No request is both still owed and already answered, and none is answered twice. */
  ghost predicate AnsweredOnce(s: State) {
    |s.line| <= 1 && (s.line != [] ==> s.line[0] !in s.owed)
  }

  ghost predicate Inv(s: State) {
    LockIsHonest(s) && BusIsTheHolders(s) && AnsweredOnce(s) && OwnAnswers(s)
  }

  lemma LockStaysHonest(c: Setting, s: State, e: Event)
    requires Coordinated(c) && |s.phases| == |c.active| && Enabled(c, s, e) && LockIsHonest(s)
    ensures LockIsHonest(Step(c, s, e))
  {
  }

  lemma BusStaysTheHolders(c: Setting, s: State, e: Event)
    requires Coordinated(c) && |s.phases| == |c.active| && Enabled(c, s, e) && Inv(s)
    ensures BusIsTheHolders(Step(c, s, e)) && AnsweredOnce(Step(c, s, e))
  {
    assert s.line != [] ==> s.line[0] in s.line;
  }

  lemma AnswersStayOwn(c: Setting, s: State, e: Event)
    requires Coordinated(c) && |s.phases| == |c.active| && Enabled(c, s, e) && Inv(s)
    ensures OwnAnswers(Step(c, s, e))
  {
    if e.Read? {
      assert s.line[0] in s.line;
    }
  }

  lemma {:induction false} InvHolds(c: Setting, events: seq<Event>)
    requires Coordinated(c) && Run(c, events).Some?
    ensures Inv(Run(c, events).value)
  {
    if events != [] {
      var init, last := events[..|events| - 1], events[|events| - 1];
      InvHolds(c, init);
      var s := Run(c, init).value;
      LockStaysHonest(c, s, last);
      BusStaysTheHolders(c, s, last);
      AnswersStayOwn(c, s, last);
    }
  }

  /** In every reachable state any pending answer belongs to the lock holder's request, and every finished exchange read its own. */
  lemma PendingAnswerIsTheHolders(c: Setting, s: State)
    requires Coordinated(c) && Reachable(c, s)
    ensures OwnAnswers(s)
    ensures forall r :: r in s.line ==> exists p :: 0 <= p < |s.phases| && s.lock == Some(p) && s.phases[p] == Awaiting(true, r)
  {
    var events :| Run(c, events) == Some(s);
    InvHolds(c, events);
  }

  /** Every way out of the block releases: a process that is not inside holds nothing, and two are never inside together. */
  lemma EveryExitReleases(c: Setting, s: State, p: nat, q: nat)
    requires Coordinated(c) && Reachable(c, s) && p < |s.phases| && q < |s.phases|
    ensures s.lock == Some(p) <==> InBlock(s.phases[p])
    ensures InBlock(s.phases[p]) && InBlock(s.phases[q]) ==> p == q
    ensures s.phases[p].Leaving? ==> Enabled(c, s, Leave(p)) && Step(c, s, Leave(p)).lock == None
  {
    var events :| Run(c, events) == Some(s);
    InvHolds(c, events);
    assert |s.phases| == |c.active|;
  }

  // ----- and exactly when it can be promised -----

  lemma {:induction false} RunOn(c: Setting, events: seq<Event>, e: Event)
    requires Run(c, events).Some? && Enabled(c, Run(c, events).value, e)
    ensures Run(c, events + [e]) == Some(Step(c, Run(c, events).value, e))
  {
    assert (events + [e])[..|events|] == events;
  }

  /** One whole entry of an idle process into the block, while nobody holds the lock. */
  lemma EnterBlock(c: Setting, events: seq<Event>, p: nat) returns (more: seq<Event>)
    requires Run(c, events).Some? && p < |c.active|
    requires var s := Run(c, events).value; s.phases[p].Idle? && (c.active[p] ==> s.lock.None?)
    ensures var s := Run(c, events).value;
            Run(c, more) == Some(s.(phases := s.phases[p := Inside(c.active[p])], lock := if c.active[p] then Some(p) else s.lock))
  {
    var s := Run(c, events).value;
    RunOn(c, events, Enter(p));
    more := events + [Enter(p)];
    if c.active[p] {
      var waiting := Run(c, more).value;
      RunOn(c, more, Acquire(p));
      more := more + [Acquire(p)];
      assert waiting.phases[p := Inside(true)] == s.phases[p := Inside(true)];
    }
  }

  lemma PendingHasAHolder(s: State)
    requires BusIsTheHolders(s)
    ensures s.owed != {} || s.line != [] ==> s.lock.Some?
  {
    if s.line != [] {
      var r := s.line[0];
      assert r in s.line;
    }
  }

  /** The promise is not empty: whenever nobody holds the lock, an idle process can run a whole exchange to its own answer. */
  lemma {:induction false} FreeBusCompletesAnExchange(c: Setting, events: seq<Event>, p: nat)
    requires Coordinated(c) && Run(c, events).Some? && p < |c.active|
    requires Run(c, events).value.lock.None? && Run(c, events).value.phases[p].Idle?
    ensures var s := Run(c, events).value;
            exists more :: Run(c, more) == Some(s.(issued := s.issued + 1, done := s.done + [Exchange(p, s.issued, s.issued)]))
  {
    var s := Run(c, events).value;
    InvHolds(c, events);
    PendingHasAHolder(s);
    assert s.owed == {};
    var entered := EnterBlock(c, events, p);
    RunOn(c, entered, Send(p));
    var asked := entered + [Send(p)];
    RunOn(c, asked, Answer(s.issued));
    var answered := asked + [Answer(s.issued)];
    RunOn(c, answered, Read(p));
    var read := answered + [Read(p)];
    RunOn(c, read, Leave(p));
    var left := read + [Leave(p)];
    var end := Run(c, left).value;
    assert end.phases == s.phases && end.owed == s.owed && end.line == s.line;
    assert Run(c, left) == Some(s.(issued := s.issued + 1, done := s.done + [Exchange(p, s.issued, s.issued)]));
  }

  ghost predicate Swapped(c: Setting) {
    exists s :: Reachable(c, s) && !OwnAnswers(s)
  }

  lemma {:induction false} SwapWitness(c: Setting, events: seq<Event>)
    requires Run(c, events).Some?
    requires var done := Run(c, events).value.done; done != [] && done[0].answer != done[0].request
    ensures Swapped(c)
  {
    assert Reachable(c, Run(c, events).value);
  }

  /** A late answer is read by whoever asks next, lock or no lock. */
  lemma LateAnswerSwaps(c: Setting, p: nat)
    requires p < |c.active| && !c.punctual
    ensures Swapped(c)
  {
    var entered := EnterBlock(c, [], p);
    RunOn(c, entered, Send(p));
    var sent := entered + [Send(p)];
    RunOn(c, sent, GiveUp(p));
    var gaveUp := sent + [GiveUp(p)];
    RunOn(c, gaveUp, Leave(p));
    var left := gaveUp + [Leave(p)];
    var again := EnterBlock(c, left, p);
    AskAndReadStale(c, again, p);
  }

  lemma {:induction false} AskAndReadStale(c: Setting, events: seq<Event>, p: nat)
    requires Run(c, events).Some? && p < |c.active|
    requires var s := Run(c, events).value;
             s.phases[p].Inside? && s.issued == 1 && 0 in s.owed && s.line == [] && s.done == []
    ensures Swapped(c)
  {
    RunOn(c, events, Send(p));
    var sent := events + [Send(p)];
    RunOn(c, sent, Answer(0));
    var answered := sent + [Answer(0)];
    RunOn(c, answered, Read(p));
    SwapWitness(c, answered + [Read(p)]);
  }

  /** One uncoordinated process is enough to read another's answer. */
  lemma UncoordinatedSwaps(c: Setting, p: nat, q: nat)
    requires p < |c.active| && q < |c.active| && p != q && !c.active[q]
    ensures Swapped(c)
  {
    var first := EnterBlock(c, [], p);
    RunOn(c, first, Send(p));
    var asked := first + [Send(p)];
    var second := EnterBlock(c, asked, q);
    AskAndReadStale(c, second, q);
  }

  /** Among two or more processes, no exchange ever reads another's answer if and only if all of them lock and the device is punctual. */
  lemma AnswersAreOwnExactlyWhenCoordinated(c: Setting)
    requires |c.active| >= 2
    ensures !Swapped(c) <==> Coordinated(c)
  {
    if Coordinated(c) {
      forall s | Reachable(c, s) ensures OwnAnswers(s) {
        PendingAnswerIsTheHolders(c, s);
      }
    } else if !c.punctual {
      LateAnswerSwaps(c, 0);
    } else {
      var q :| 0 <= q < |c.active| && !c.active[q];
      UncoordinatedSwaps(c, if q == 0 then 1 else 0, q);
    }
  }
}
