/** Every interleaving of commands, refusals, bus failures, journal faults, crashes and restarts,
    on one durable journal, with a clock that may step backwards. */
module ControlProtocol {
  import opened Basics
  import opened Control
  import opened Division

  /** How far the lock holder has got. From `Intended` on, the intent is on disk. */
  datatype Stage =
    | Entered
    | Cleared(now: int)
    | Intended(now: int)
    | Operated(now: int)
    | Noted(now: int)
    | Rejected(now: int, code: int)

  datatype Holder = Holder(thread: nat, command: Command, stage: Stage)

  /** One write put on the bus: how many records the journal held at that moment, when it was judged, and how it went. */
  datatype BusWrite = BusWrite(command: Command, recorded: nat, now: int, outcome: BusOutcome)

  datatype State = State(
    rows: seq<Record>,
    cache: map<string, int>,
    waiting: map<nat, Command>,
    holder: Option<Holder>,
    bus: seq<BusWrite>,
    used: set<string>,
    interrupted: set<string>)

  datatype Event =
    | Submit(thread: nat, command: Command)
    | Acquire(thread: nat)
    | Judge(now: int)
    | RecordIntent
    | Operate(outcome: BusOutcome)
    | NoteApplied
    | RecordResult
    | JournalFault
    | Crash

  const INITIAL := State([], map[], map[], None, [], {}, {})

  /** Whether the holder's intent is on disk without an outcome yet. */
  predicate IntentPending(h: Holder) {
    h.stage.Intended? || h.stage.Operated? || h.stage.Noted? || h.stage.Rejected?
  }

  predicate Enabled(policy: Policy, hasTransport: bool, s: State, e: Event) {
    match e
    case Submit(thread, c) =>
      && thread !in s.waiting && (s.holder.Some? ==> s.holder.value.thread != thread)
      && c.id !in s.used && !EndsInIssued(c.id)
    case Acquire(thread) => s.holder.None? && thread in s.waiting
    case Judge(_) => s.holder.Some? && s.holder.value.stage.Entered?
    case RecordIntent => s.holder.Some? && s.holder.value.stage.Cleared?
    case Operate(_) => s.holder.Some? && s.holder.value.stage.Intended?
    case NoteApplied => s.holder.Some? && s.holder.value.stage.Operated?
    case RecordResult => s.holder.Some? && (s.holder.value.stage.Noted? || s.holder.value.stage.Rejected?)
    case JournalFault => s.holder.Some? && !s.holder.value.stage.Intended? && !s.holder.value.stage.Operated?
    case Crash => true
  }

  /** The lock released by an exception that escapes, or lost with the process. */
  function Abandoned(s: State): State {
    s.(holder := None,
       interrupted := s.interrupted + if s.holder.Some? && IntentPending(s.holder.value) then {s.holder.value.command.id} else {})
  }

  function Next(policy: Policy, hasTransport: bool, s: State, e: Event): State
    requires Enabled(policy, hasTransport, s, e)
  {
    match e
    case Submit(thread, c) => s.(waiting := s.waiting[thread := c], used := s.used + {c.id})
    case Acquire(thread) => s.(waiting := s.waiting - {thread}, holder := Some(Holder(thread, s.waiting[thread], Entered)))
    case Judge(now) =>
      var h := s.holder.value;
      var verdict := Decide(policy, hasTransport, s.rows, s.cache, h.command, now);
      var cache := CacheAfterDecide(policy, hasTransport, s.rows, s.cache, h.command);
      if verdict.Stop? then
        s.(rows := Appended(s.rows, RecordOf(h.command, verdict.status, verdict.detail, now)), cache := cache, holder := None)
      else s.(cache := cache, holder := Some(h.(stage := Cleared(now))))
    case RecordIntent =>
      var h := s.holder.value;
      s.(rows := Appended(s.rows, IntentOf(h.command, h.stage.now)), holder := Some(h.(stage := Intended(h.stage.now))))
    case Operate(outcome) =>
      var h := s.holder.value;
      var moved := s.(bus := s.bus + [BusWrite(h.command, |s.rows|, h.stage.now, outcome)]);
      (match outcome
       case Confirmed => moved.(holder := Some(h.(stage := Operated(h.stage.now))))
       case WriteError(code) => moved.(holder := Some(h.(stage := Rejected(h.stage.now, code))))
       case OtherException => Abandoned(moved))
    case NoteApplied =>
      var h := s.holder.value;
      s.(cache := s.cache[h.command.target := h.stage.now], holder := Some(h.(stage := Noted(h.stage.now))))
    case RecordResult =>
      var h := s.holder.value;
      var record := if h.stage.Noted? then RecordOf(h.command, Applied, Nothing, h.stage.now)
                    else RecordOf(h.command, Failed, BusError(h.stage.code), h.stage.now);
      s.(rows := Appended(s.rows, record), holder := None)
    case JournalFault =>
      // the refusal, the intent or the outcome could not be written: the exception escapes
      var h := s.holder.value;
      Abandoned(s).(cache := if h.stage.Entered? then CacheAfterDecide(policy, hasTransport, s.rows, s.cache, h.command) else s.cache)
    case Crash => Abandoned(s).(cache := map[], waiting := map[])
  }

  /** A run: from one state to another by these events, in order. */
  ghost predicate Runs(policy: Policy, hasTransport: bool, s: State, events: seq<Event>, s': State)
    decreases |events|
  {
    if events == [] then s == s'
    else Enabled(policy, hasTransport, s, events[0])
         && Runs(policy, hasTransport, Next(policy, hasTransport, s, events[0]), events[1..], s')
  }

  /** Every state some history of a journal that began empty can reach. */
  ghost predicate Reachable(policy: Policy, hasTransport: bool, s: State) {
    exists events :: Runs(policy, hasTransport, INITIAL, events, s)
  }

  // ----- what every step keeps: names -----

  /** Every record is named after a command once submitted: its intent, or its outcome. */
  ghost predicate Named(s: State) {
    forall k :: 0 <= k < |s.rows| ==> HasName(s.rows[k], s.used)
  }

  ghost predicate HasName(r: Record, used: set<string>) {
    exists c :: c in used && NamedAfter(r, c)
  }

  ghost predicate NamedAfter(r: Record, id: string) {
    r.id == if r.status == Issued then IntentId(id) else id
  }

  /** Commands under way are distinct, and what they have yet to record is not in the journal. */
  ghost predicate Fresh(s: State) {
    && (forall id :: id in s.used ==> !EndsInIssued(id))
    && (forall t :: t in s.waiting ==> Unrecorded(s, s.waiting[t].id))
    && (forall t, u :: t in s.waiting && u in s.waiting && t != u ==> s.waiting[t].id != s.waiting[u].id)
    && (s.holder.Some? ==>
          var h := s.holder.value;
          && h.command.id in s.used && h.command.id !in s.interrupted && !Holds(s.rows, h.command.id)
          && (!IntentPending(h) ==> Unrecorded(s, h.command.id))
          && (forall t :: t in s.waiting ==> s.waiting[t].id != h.command.id))
    && s.interrupted <= s.used
  }

  ghost predicate Unrecorded(s: State, id: string) {
    id in s.used && id !in s.interrupted && !Holds(s.rows, id) && !Holds(s.rows, IntentId(id))
  }

  // ----- what every step keeps: rest between operations -----

  function AppliedAt(rows: seq<Record>, target: string): seq<int> {
    if rows == [] then []
    else
      var last := rows[|rows| - 1];
      AppliedAt(rows[..|rows| - 1], target) + if last.target == target && last.status == Applied then [last.decidedAt] else []
  }

  ghost predicate Rested(times: seq<int>, minimum: nat) {
    forall k :: 0 < k < |times| ==> times[k] - times[k - 1] >= minimum
  }

  /** No applied record is newer than what the guard will remember for its relay. */
  ghost predicate Remembers(s: State) {
    forall target :: target in s.cache ==>
      var last := LastApplied(s.rows, target); last.Some? ==> last.value <= s.cache[target]
  }

  /** A relay may be operated at `now`: its last recorded operation is at least its interval behind. */
  ghost predicate MayOperate(policy: Policy, rows: seq<Record>, target: string, now: int) {
    var last := LastApplied(rows, target);
    last.Some? ==> now - last.value >= policy.Minimum(target)
  }

  ghost predicate Paced(policy: Policy, s: State) {
    && Remembers(s)
    && (s.holder.Some? && !s.holder.value.stage.Entered? ==>
          MayOperate(policy, s.rows, s.holder.value.command.target, s.holder.value.stage.now))
    && (s.holder.Some? && s.holder.value.stage.Noted? ==>
          var h := s.holder.value; h.command.target in s.cache && s.cache[h.command.target] == h.stage.now)
    && (forall target :: Rested(AppliedAt(s.rows, target), policy.Minimum(target)))
  }

  // ----- what every step keeps: intents and outcomes -----

  ghost predicate IsOutcomeOf(r: Record, id: string) {
    r.id == id && (r.status == Applied || r.status == Failed)
  }

  /** The intent at `k` has its outcome right behind it, or was cut short, or is the holder's and the last record. */
  ghost predicate Settled(s: State, k: nat, id: string)
    requires k < |s.rows|
  {
    || (k + 1 < |s.rows| && IsOutcomeOf(s.rows[k + 1], id) && s.rows[k + 1].target == s.rows[k].target
        && s.rows[k + 1].decidedAt == s.rows[k].decidedAt)
    || id in s.interrupted
    || (s.holder.Some? && IntentPending(s.holder.value) && k + 1 == |s.rows| && s.rows[k] == PendingIntent(s.holder.value)
        && s.holder.value.command.id == id)
  }

  function PendingIntent(h: Holder): Record
    requires IntentPending(h)
  {
    IntentOf(h.command, h.stage.now)
  }

  ghost predicate Accounted(s: State) {
    && (forall k, id :: 0 <= k < |s.rows| && s.rows[k].status == Issued && s.rows[k].id == IntentId(id) ==> Settled(s, k, id))
    && (forall id :: id in s.interrupted ==> !Holds(s.rows, id) && Holds(s.rows, IntentId(id)))
    && (s.holder.Some? && IntentPending(s.holder.value) ==>
          |s.rows| > 0 && s.rows[|s.rows| - 1] == PendingIntent(s.holder.value))
    && (forall n :: 0 <= n < |s.bus| ==>
          s.bus[n].recorded <= |s.rows| && IntentOnRecord(s.rows[..s.bus[n].recorded], s.bus[n].command))
  }

  ghost predicate IntentOnRecord(rows: seq<Record>, c: Command) {
    exists k :: 0 <= k < |rows| && rows[k] == IntentOf(c, rows[k].decidedAt)
  }

  ghost predicate Inv(policy: Policy, s: State) {
    Named(s) && Fresh(s) && Paced(policy, s) && Accounted(s)
  }

  // ----- every step keeps them -----

  lemma HoldsAfter(rows: seq<Record>, r: Record, id: string)
    ensures Holds(rows + [r], id) <==> Holds(rows, id) || r.id == id
  {
    var more := rows + [r];
    if Holds(rows, id) {
      var k :| 0 <= k < |rows| && rows[k].id == id;
      assert more[k].id == id;
    }
    if r.id == id {
      assert more[|rows|].id == id;
    }
    if Holds(more, id) && r.id != id {
      var k :| 0 <= k < |more| && more[k].id == id;
      assert rows[k].id == id;
    }
  }

  /** What a step appends, if anything: always under a name the journal does not hold yet. */
  function Added(policy: Policy, hasTransport: bool, s: State, e: Event): seq<Record>
    requires Enabled(policy, hasTransport, s, e)
  {
    match e
    case Judge(now) =>
      var h := s.holder.value;
      var verdict := Decide(policy, hasTransport, s.rows, s.cache, h.command, now);
      if verdict.Stop? then [RecordOf(h.command, verdict.status, verdict.detail, now)] else []
    case RecordIntent => [IntentOf(s.holder.value.command, s.holder.value.stage.now)]
    case RecordResult =>
      var h := s.holder.value;
      [if h.stage.Noted? then RecordOf(h.command, Applied, Nothing, h.stage.now)
       else RecordOf(h.command, Failed, BusError(h.stage.code), h.stage.now)]
    case _ => []
  }

  lemma RowsGrow(policy: Policy, hasTransport: bool, s: State, e: Event)
    requires Enabled(policy, hasTransport, s, e) && Fresh(s)
    ensures Next(policy, hasTransport, s, e).rows == s.rows + Added(policy, hasTransport, s, e)
  {
  }

  lemma NameStays(r: Record, used: set<string>, more: set<string>)
    requires HasName(r, used) && used <= more
    ensures HasName(r, more)
  {
    var c :| c in used && NamedAfter(r, c);
    assert c in more;
  }

  lemma {:induction false} NamedKept(policy: Policy, hasTransport: bool, s: State, e: Event)
    requires Enabled(policy, hasTransport, s, e) && Fresh(s) && Named(s)
    ensures Named(Next(policy, hasTransport, s, e))
  {
    var s' := Next(policy, hasTransport, s, e);
    RowsGrow(policy, hasTransport, s, e);
    forall k | 0 <= k < |s'.rows| ensures HasName(s'.rows[k], s'.used) {
      if k < |s.rows| {
        assert s'.rows[k] == s.rows[k];
        NameStays(s.rows[k], s.used, s'.used);
      } else {
        assert NamedAfter(s'.rows[k], s.holder.value.command.id);
      }
    }
  }

  /** A name never submitted has never been recorded. */
  lemma NewNameIsUnrecorded(s: State, id: string)
    requires Named(s) && Fresh(s) && id !in s.used && !EndsInIssued(id)
    ensures !Holds(s.rows, id) && !Holds(s.rows, IntentId(id))
  {
    forall k | 0 <= k < |s.rows| ensures s.rows[k].id != id && s.rows[k].id != IntentId(id) {
      var r := s.rows[k];
      assert HasName(r, s.used);
      var c :| c in s.used && NamedAfter(r, c);
      IntentIdsAreApart(c, id);
      IntentIdsAreApart(id, c);
    }
  }

  lemma NamesApart(a: string, b: string)
    requires !EndsInIssued(a) && !EndsInIssued(b) && a != b
    ensures IntentId(a) != IntentId(b) && IntentId(a) != b && a != IntentId(b) && IntentId(a) != a
  {
    IntentIdsAreApart(a, b);
    IntentIdsAreApart(b, a);
  }

  /** Recording one command leaves the names of every other as they were. */
  lemma OthersUntouched(rows: seq<Record>, r: Record, own: string, other: string)
    requires !EndsInIssued(own) && !EndsInIssued(other) && own != other
    requires r.id == own || r.id == IntentId(own)
    ensures Holds(rows + [r], other) == Holds(rows, other) && Holds(rows + [r], IntentId(other)) == Holds(rows, IntentId(other))
  {
    NamesApart(own, other);
    HoldsAfter(rows, r, other);
    HoldsAfter(rows, r, IntentId(other));
  }

  lemma SubmitKeepsFresh(policy: Policy, hasTransport: bool, s: State, e: Event)
    requires e.Submit? && Enabled(policy, hasTransport, s, e) && Named(s) && Fresh(s)
    ensures Fresh(Next(policy, hasTransport, s, e))
  {
    NewNameIsUnrecorded(s, e.command.id);
    assert e.command.id !in s.interrupted;
  }

  lemma FreshKept(policy: Policy, hasTransport: bool, s: State, e: Event)
    requires Enabled(policy, hasTransport, s, e) && Named(s) && Fresh(s)
    ensures Fresh(Next(policy, hasTransport, s, e))
  {
    var s' := Next(policy, hasTransport, s, e);
    RowsGrow(policy, hasTransport, s, e);
    match e {
      case Submit(thread, c) => SubmitKeepsFresh(policy, hasTransport, s, e);
      case Judge(_) => HolderRecords(s, s', Added(policy, hasTransport, s, e));
      case RecordIntent =>
        HolderRecords(s, s', Added(policy, hasTransport, s, e));
        var id := s.holder.value.command.id;
        HoldsAfter(s.rows, Added(policy, hasTransport, s, e)[0], id);
        IntentIdsAreApart(id, id);
      case RecordResult => HolderRecords(s, s', Added(policy, hasTransport, s, e));
      case _ =>
    }
  }

  lemma HolderRecords(s: State, s': State, added: seq<Record>)
    requires Fresh(s) && s.holder.Some? && |added| <= 1
    requires forall r :: r in added ==> r.id == s.holder.value.command.id || r.id == IntentId(s.holder.value.command.id)
    requires s'.rows == s.rows + added && s'.waiting == s.waiting && s'.used == s.used && s'.interrupted == s.interrupted
    ensures forall t :: t in s'.waiting ==> Unrecorded(s', s'.waiting[t].id)
  {
    forall t | t in s'.waiting ensures Unrecorded(s', s'.waiting[t].id) {
      assert Unrecorded(s, s.waiting[t].id);
      if added != [] {
        assert added == [added[0]] && added[0] in added;
        OthersUntouched(s.rows, added[0], s.holder.value.command.id, s.waiting[t].id);
      }
    }
  }

  // rest between operations

  lemma {:induction false} LastAppliedAfter(rows: seq<Record>, r: Record, target: string)
    ensures LastApplied(rows + [r], target)
            == if r.target == target && r.status == Applied then Some(r.decidedAt) else LastApplied(rows, target)
    ensures AppliedAt(rows + [r], target)
            == AppliedAt(rows, target) + if r.target == target && r.status == Applied then [r.decidedAt] else []
  {
    assert (rows + [r])[..|rows|] == rows;
  }

  lemma {:induction false} LastAppliedIsLast(rows: seq<Record>, target: string)
    ensures var times := AppliedAt(rows, target);
            LastApplied(rows, target) == if times == [] then None else Some(times[|times| - 1])
  {
    if rows != [] {
      LastAppliedIsLast(rows[..|rows| - 1], target);
    }
  }

  /** Recording anything but an operation leaves every relay's rest as it was. */
  lemma {:induction false} OtherRecordsRest(rows: seq<Record>, r: Record, target: string)
    requires r.status != Applied
    ensures AppliedAt(rows + [r], target) == AppliedAt(rows, target) && LastApplied(rows + [r], target) == LastApplied(rows, target)
  {
    LastAppliedAfter(rows, r, target);
  }

  lemma PacedWithoutOperation(policy: Policy, s: State, s': State, added: seq<Record>)
    requires Paced(policy, s) && s'.rows == s.rows + added && |added| <= 1
    requires forall r :: r in added ==> r.status != Applied
    ensures forall target :: LastApplied(s'.rows, target) == LastApplied(s.rows, target)
    ensures forall target :: Rested(AppliedAt(s'.rows, target), policy.Minimum(target))
  {
    forall target
      ensures LastApplied(s'.rows, target) == LastApplied(s.rows, target)
      ensures Rested(AppliedAt(s'.rows, target), policy.Minimum(target))
    {
      if added == [] {
        assert s'.rows == s.rows;
      } else {
        assert added[0] in added && added == [added[0]];
        OtherRecordsRest(s.rows, added[0], target);
      }
    }
  }

  lemma {:induction false} PacedAfterOperation(policy: Policy, rows: seq<Record>, r: Record, target: string)
    requires r.status == Applied && Rested(AppliedAt(rows, target), policy.Minimum(target))
    requires MayOperate(policy, rows, r.target, r.decidedAt)
    ensures Rested(AppliedAt(rows + [r], target), policy.Minimum(target))
  {
    LastAppliedAfter(rows, r, target);
    LastAppliedIsLast(rows, target);
  }

  lemma RecordResultKeepsPace(policy: Policy, hasTransport: bool, s: State)
    requires Enabled(policy, hasTransport, s, RecordResult) && Fresh(s) && Paced(policy, s)
    ensures Paced(policy, Next(policy, hasTransport, s, RecordResult))
  {
    var s' := Next(policy, hasTransport, s, RecordResult);
    var added := Added(policy, hasTransport, s, RecordResult);
    RowsGrow(policy, hasTransport, s, RecordResult);
    if added[0].status == Applied {
      forall target ensures Rested(AppliedAt(s'.rows, target), policy.Minimum(target)) {
        PacedAfterOperation(policy, s.rows, added[0], target);
      }
      forall target | target in s'.cache
        ensures var last := LastApplied(s'.rows, target); last.Some? ==> last.value <= s'.cache[target]
      {
        LastAppliedAfter(s.rows, added[0], target);
      }
    } else {
      PacedWithoutOperation(policy, s, s', added);
    }
  }

  /** The guard lets a command through only when its relay has rested. */
  lemma JudgeKeepsPace(policy: Policy, hasTransport: bool, s: State, now: int)
    requires Enabled(policy, hasTransport, s, Judge(now)) && Fresh(s) && Paced(policy, s)
    ensures Paced(policy, Next(policy, hasTransport, s, Judge(now)))
  {
    RowsGrow(policy, hasTransport, s, Judge(now));
    PacedWithoutOperation(policy, s, Next(policy, hasTransport, s, Judge(now)), Added(policy, hasTransport, s, Judge(now)));
  }

  lemma NoteAppliedKeepsPace(policy: Policy, hasTransport: bool, s: State)
    requires Enabled(policy, hasTransport, s, NoteApplied) && Fresh(s) && Paced(policy, s)
    ensures Paced(policy, Next(policy, hasTransport, s, NoteApplied))
  {
    PacedWithoutOperation(policy, s, Next(policy, hasTransport, s, NoteApplied), []);
  }

  lemma JournalFaultKeepsPace(policy: Policy, hasTransport: bool, s: State)
    requires Enabled(policy, hasTransport, s, JournalFault) && Fresh(s) && Paced(policy, s)
    ensures Paced(policy, Next(policy, hasTransport, s, JournalFault))
  {
    PacedWithoutOperation(policy, s, Next(policy, hasTransport, s, JournalFault), []);
  }

  lemma RecordIntentKeepsPace(policy: Policy, hasTransport: bool, s: State)
    requires Enabled(policy, hasTransport, s, RecordIntent) && Fresh(s) && Paced(policy, s)
    ensures Paced(policy, Next(policy, hasTransport, s, RecordIntent))
  {
    RowsGrow(policy, hasTransport, s, RecordIntent);
    PacedWithoutOperation(policy, s, Next(policy, hasTransport, s, RecordIntent), Added(policy, hasTransport, s, RecordIntent));
  }

  lemma PacedKept(policy: Policy, hasTransport: bool, s: State, e: Event)
    requires Enabled(policy, hasTransport, s, e) && Fresh(s) && Paced(policy, s)
    ensures Paced(policy, Next(policy, hasTransport, s, e))
  {
    match e {
      case RecordResult => RecordResultKeepsPace(policy, hasTransport, s);
      case Judge(now) => JudgeKeepsPace(policy, hasTransport, s, now);
      case NoteApplied => NoteAppliedKeepsPace(policy, hasTransport, s);
      case JournalFault => JournalFaultKeepsPace(policy, hasTransport, s);
      case RecordIntent => RecordIntentKeepsPace(policy, hasTransport, s);
      case _ =>
        var s' := Next(policy, hasTransport, s, e);
        assert s'.rows == s.rows && (s'.cache == s.cache || s'.cache == map[]);
    }
  }

  // intents and outcomes

  lemma IntentStays(rows: seq<Record>, added: seq<Record>, n: nat, c: Command)
    requires n <= |rows| && IntentOnRecord(rows[..n], c)
    ensures IntentOnRecord((rows + added)[..n], c)
  {
    assert (rows + added)[..n] == rows[..n];
  }

  /** A pending intent stays pending until its outcome is recorded, unless the execution is cut short. */
  lemma IntentMovesOn(policy: Policy, hasTransport: bool, s: State, e: Event)
    requires Enabled(policy, hasTransport, s, e) && Added(policy, hasTransport, s, e) == []
    ensures var s' := Next(policy, hasTransport, s, e);
            && s.interrupted <= s'.interrupted
            && (forall id :: id in s'.interrupted && id !in s.interrupted ==>
                  s.holder.Some? && IntentPending(s.holder.value) && s.holder.value.command.id == id)
            && (s.holder.Some? && IntentPending(s.holder.value) ==>
                  || s.holder.value.command.id in s'.interrupted
                  || (s'.holder.Some? && IntentPending(s'.holder.value) && s'.holder.value.command == s.holder.value.command
                      && PendingIntent(s'.holder.value) == PendingIntent(s.holder.value)))
            && (s'.holder.Some? && IntentPending(s'.holder.value) ==>
                  && s.holder.Some? && IntentPending(s.holder.value)
                  && PendingIntent(s'.holder.value) == PendingIntent(s.holder.value))
  {
  }

  lemma SettledStays(policy: Policy, hasTransport: bool, s: State, e: Event, k: nat, id: string)
    requires Enabled(policy, hasTransport, s, e) && Added(policy, hasTransport, s, e) == []
    requires k < |s.rows| && Settled(s, k, id) && Next(policy, hasTransport, s, e).rows == s.rows
    ensures Settled(Next(policy, hasTransport, s, e), k, id)
  {
    IntentMovesOn(policy, hasTransport, s, e);
  }

  lemma BusStaysAccounted(policy: Policy, hasTransport: bool, s: State, e: Event, n: nat)
    requires Enabled(policy, hasTransport, s, e) && Accounted(s) && Next(policy, hasTransport, s, e).rows == s.rows
    requires n < |Next(policy, hasTransport, s, e).bus|
    ensures var w := Next(policy, hasTransport, s, e).bus[n]; w.recorded <= |s.rows| && IntentOnRecord(s.rows[..w.recorded], w.command)
  {
    if e.Operate? {
      var c := s.holder.value.command;
      assert s.rows[..|s.rows|] == s.rows;
      assert s.rows[|s.rows| - 1] == IntentOf(c, s.rows[|s.rows| - 1].decidedAt);
      assert IntentOnRecord(s.rows, c);
    }
  }

  /** Steps that record nothing only move the holder along, or cut it short. */
  lemma {:induction false} AccountedWithoutRecord(policy: Policy, hasTransport: bool, s: State, e: Event)
    requires Enabled(policy, hasTransport, s, e) && Fresh(s) && Accounted(s)
    requires Added(policy, hasTransport, s, e) == []
    ensures Accounted(Next(policy, hasTransport, s, e))
  {
    var s' := Next(policy, hasTransport, s, e);
    RowsGrow(policy, hasTransport, s, e);
    assert s'.rows == s.rows;
    IntentMovesOn(policy, hasTransport, s, e);
    forall k, id | 0 <= k < |s'.rows| && s'.rows[k].status == Issued && s'.rows[k].id == IntentId(id)
      ensures Settled(s', k, id)
    {
      SettledStays(policy, hasTransport, s, e, k, id);
    }
    forall n | 0 <= n < |s'.bus|
      ensures s'.bus[n].recorded <= |s'.rows| && IntentOnRecord(s'.rows[..s'.bus[n].recorded], s'.bus[n].command)
    {
      BusStaysAccounted(policy, hasTransport, s, e, n);
    }
    if s.holder.Some? && IntentPending(s.holder.value) {
      assert s.rows[|s.rows| - 1].id == IntentId(s.holder.value.command.id);
    }
  }

  lemma {:induction false} AccountedKept(policy: Policy, hasTransport: bool, s: State, e: Event)
    requires Enabled(policy, hasTransport, s, e) && Named(s) && Fresh(s) && Accounted(s)
    ensures Accounted(Next(policy, hasTransport, s, e))
  {
    var added := Added(policy, hasTransport, s, e);
    if added == [] {
      AccountedWithoutRecord(policy, hasTransport, s, e);
    } else {
      AccountedAfterRecord(policy, hasTransport, s, e);
    }
  }

  lemma InterruptedStay(s: State, r: Record, id: string)
    requires Fresh(s) && Accounted(s) && s.holder.Some? && id in s.interrupted
    requires r.id == s.holder.value.command.id || r.id == IntentId(s.holder.value.command.id)
    ensures !Holds(s.rows + [r], id) && Holds(s.rows + [r], IntentId(id))
  {
    OthersUntouched(s.rows, r, s.holder.value.command.id, id);
  }

  lemma AccountedAfterRecord(policy: Policy, hasTransport: bool, s: State, e: Event)
    requires Enabled(policy, hasTransport, s, e) && Named(s) && Fresh(s) && Accounted(s)
    requires Added(policy, hasTransport, s, e) != []
    ensures Accounted(Next(policy, hasTransport, s, e))
  {
    var s' := Next(policy, hasTransport, s, e);
    var r := Added(policy, hasTransport, s, e)[0];
    var own := s.holder.value.command.id;
    RowsGrow(policy, hasTransport, s, e);
    assert s'.rows == s.rows + [r];
    forall id | id in s'.interrupted ensures !Holds(s'.rows, id) && Holds(s'.rows, IntentId(id)) {
      InterruptedStay(s, r, id);
    }
    forall n | 0 <= n < |s'.bus|
      ensures s'.bus[n].recorded <= |s'.rows| && IntentOnRecord(s'.rows[..s'.bus[n].recorded], s'.bus[n].command)
    {
      IntentStays(s.rows, [r], s.bus[n].recorded, s.bus[n].command);
    }
    forall k, id | 0 <= k < |s'.rows| && s'.rows[k].status == Issued && s'.rows[k].id == IntentId(id)
      ensures Settled(s', k, id)
    {
      if k < |s.rows| {
        assert s'.rows[k] == s.rows[k];
        assert Settled(s, k, id);
      } else {
        IntentIdsAreApart(own, id);
      }
    }
  }

  // ----- over whole histories -----

  lemma {:induction false} InvKept(policy: Policy, hasTransport: bool, s: State, e: Event)
    requires Enabled(policy, hasTransport, s, e) && Inv(policy, s)
    ensures Inv(policy, Next(policy, hasTransport, s, e))
  {
    NamedKept(policy, hasTransport, s, e);
    FreshKept(policy, hasTransport, s, e);
    PacedKept(policy, hasTransport, s, e);
    AccountedKept(policy, hasTransport, s, e);
  }

  lemma {:induction false} InvOverRuns(policy: Policy, hasTransport: bool, s: State, events: seq<Event>, s': State)
    requires Inv(policy, s) && Runs(policy, hasTransport, s, events, s')
    ensures Inv(policy, s')
    decreases |events|
  {
    if events != [] {
      InvKept(policy, hasTransport, s, events[0]);
      InvOverRuns(policy, hasTransport, Next(policy, hasTransport, s, events[0]), events[1..], s');
    }
  }

  lemma ReachableInv(policy: Policy, hasTransport: bool, s: State)
    requires Reachable(policy, hasTransport, s)
    ensures Inv(policy, s)
  {
    var events :| Runs(policy, hasTransport, INITIAL, events, s);
    assert Inv(policy, INITIAL);
    InvOverRuns(policy, hasTransport, INITIAL, events, s);
  }

  lemma {:induction false} RestAddsUp(times: seq<int>, minimum: nat, i: nat, j: nat)
    requires Rested(times, minimum) && i <= j < |times|
    ensures times[j] - times[i] >= (j - i) * minimum
    decreases j - i
  {
    if i < j {
      RestAddsUp(times, minimum, i, j - 1);
      assert times[j] - times[j - 1] >= minimum;
      assert (j - i) * minimum == (j - 1 - i) * minimum + minimum;
    }
  }

  lemma {:induction false} CountInSpan(n: nat, minimum: nat, span: int)
    requires minimum > 0 && n * minimum <= span
    ensures n <= span / minimum
  {
    var q := span / minimum;
    if n > q {
      StepUp(q, n, minimum);
    }
  }

  /** In every reachable state, a relay's recorded operations stand at least its minimum interval apart, in the order
      they were written; so no span holds more of them than its length allows. */
  lemma {:induction false} OperationsAreSpaced(policy: Policy, hasTransport: bool, s: State, target: string, i: nat, j: nat)
    requires Reachable(policy, hasTransport, s)
    requires var times := AppliedAt(s.rows, target); i <= j < |times|
    ensures var times, minimum := AppliedAt(s.rows, target), policy.Minimum(target);
            && times[j] - times[i] >= (j - i) * minimum
            && (minimum > 0 ==> j - i + 1 <= (times[j] - times[i]) / minimum + 1)
  {
    ReachableInv(policy, hasTransport, s);
    var times, minimum := AppliedAt(s.rows, target), policy.Minimum(target);
    assert Rested(times, minimum);
    RestAddsUp(times, minimum, i, j);
    if minimum > 0 {
      CountInSpan(j - i, minimum, times[j] - times[i]);
    }
  }

  lemma {:induction false} AppliedAtPrefix(rows: seq<Record>, target: string, n: nat)
    requires n <= |rows|
    ensures AppliedAt(rows[..n], target) <= AppliedAt(rows, target)
  {
    if n < |rows| {
      AppliedAtPrefix(rows[..|rows| - 1], target, n);
      assert rows[..|rows| - 1][..n] == rows[..n];
    } else {
      assert rows[..n] == rows;
    }
  }

  /** Where an APPLIED record stands among its relay's. */
  lemma {:induction false} AppliedIsListed(rows: seq<Record>, k: nat)
    requires k < |rows| && rows[k].status == Applied
    ensures var times, i := AppliedAt(rows, rows[k].target), |AppliedAt(rows[..k], rows[k].target)|;
            i < |times| && times[i] == rows[k].decidedAt
  {
    var target := rows[k].target;
    assert rows[..k + 1][..k] == rows[..k];
    AppliedAtPrefix(rows, target, k + 1);
  }

  /** The same of the records themselves: two APPLIED records of one relay, in the order of writing, are as far apart as
      the relay's whitelist entry demands. */
  lemma {:induction false} AppliedRecordsAreApart(policy: Policy, hasTransport: bool, s: State, k: nat, l: nat, t: Target)
    requires Reachable(policy, hasTransport, s) && k < l < |s.rows| && Entry(policy, s.rows[k].target, t)
    requires s.rows[k].status == Applied && s.rows[l].status == Applied && s.rows[k].target == s.rows[l].target
    ensures s.rows[l].decidedAt - s.rows[k].decidedAt >= t.minimumInterval
  {
    var target := s.rows[k].target;
    var i, j := |AppliedAt(s.rows[..k], target)|, |AppliedAt(s.rows[..l], target)|;
    AppliedIsListed(s.rows, k);
    AppliedIsListed(s.rows, l);
    AppliedAtPrefix(s.rows[..l], target, k + 1);
    assert s.rows[..l][..k + 1] == s.rows[..k + 1] && s.rows[..k + 1][..k] == s.rows[..k];
    assert i < j;
    OperationsAreSpaced(policy, hasTransport, s, target, i, j);
    LookupIsEntry(policy, target, t);
    assert (j - i) * policy.Minimum(target) >= policy.Minimum(target) by {
      AtLeastOnce(j - i, policy.Minimum(target));
    }
  }

  lemma AtLeastOnce(n: nat, m: nat)
    requires n >= 1
    ensures n * m >= m
  {
    assert n * m == (n - 1) * m + m;
  }

  /** Write-ahead: every write that reached the bus had its intent in the journal first. */
  lemma IntentPrecedesWrite(policy: Policy, hasTransport: bool, s: State, n: nat)
    requires Reachable(policy, hasTransport, s) && n < |s.bus|
    ensures s.bus[n].recorded <= |s.rows| && IntentOnRecord(s.rows[..s.bus[n].recorded], s.bus[n].command)
  {
    ReachableInv(policy, hasTransport, s);
  }

  /** An intent has no outcome on record exactly when its execution was interrupted or is still under way;
      otherwise the outcome is the very next record. */
  lemma UnmatchedIntentsAreInterruptions(policy: Policy, hasTransport: bool, s: State, k: nat, id: string)
    requires Reachable(policy, hasTransport, s)
    requires k < |s.rows| && s.rows[k].status == Issued && s.rows[k].id == IntentId(id)
    ensures !Holds(s.rows, id)
            <==> id in s.interrupted || (s.holder.Some? && IntentPending(s.holder.value) && s.holder.value.command.id == id)
    ensures Holds(s.rows, id) ==> k + 1 < |s.rows| && IsOutcomeOf(s.rows[k + 1], id) && s.rows[k + 1].decidedAt == s.rows[k].decidedAt
  {
    ReachableInv(policy, hasTransport, s);
    assert Settled(s, k, id);
    if k + 1 < |s.rows| && IsOutcomeOf(s.rows[k + 1], id) {
      assert Holds(s.rows, id);
    }
  }

  /** And no interruption goes unnoticed: each leaves its intent behind, without an outcome. */
  lemma InterruptionsLeaveIntents(policy: Policy, hasTransport: bool, s: State, id: string)
    requires Reachable(policy, hasTransport, s) && id in s.interrupted
    ensures Holds(s.rows, IntentId(id)) && !Holds(s.rows, id)
  {
    ReachableInv(policy, hasTransport, s);
  }

  // ----- why command names must be new -----

  /** The journal takes a repeated name for a retry, so an operation is recorded exactly when its name is new to it. */
  lemma RecordedExactlyWhenNameIsNew(policy: Policy, m: Memory, c: Command, now: int)
    requires Decide(policy, true, m.rows, m.cache, c, now).Proceed?
    ensures var after := AfterExecute(policy, true, m, c, now, Confirmed);
            AppliedAt(after.rows, c.target) == AppliedAt(m.rows, c.target) + [now] <==> !Holds(m.rows, c.id)
  {
    var intent, applied := IntentOf(c, now), RecordOf(c, Applied, Nothing, now);
    var rows := Appended(m.rows, intent);
    assert |IntentId(c.id)| > |c.id|;
    HoldsAfter(m.rows, intent, c.id);
    LastAppliedAfter(m.rows, intent, c.target);
    LastAppliedAfter(rows, applied, c.target);
  }

  /** And after a restart an operation left unrecorded might never have been: the relay's rest is judged as if it had not moved. */
  lemma UnrecordedOperationIsForgotten(policy: Policy, m: Memory, c: Command, now: int, next: Command, later: int)
    requires Decide(policy, true, m.rows, m.cache, c, now).Proceed? && Holds(m.rows, c.id)
    ensures var after := AfterExecute(policy, true, m, c, now, Confirmed);
            Decide(policy, true, after.rows, map[], next, later) == Decide(policy, true, m.rows, map[], next, later)
  {
    var intent := IntentOf(c, now);
    HoldsAfter(m.rows, intent, c.id);
    LastAppliedAfter(m.rows, intent, next.target);
  }

  // ----- the sequential guard is one uninterrupted pass of this machine -----

  /** The events of one command that nothing interrupts. */
  function Pass(policy: Policy, hasTransport: bool, m: Memory, thread: nat, c: Command, now: int, outcome: BusOutcome): seq<Event> {
    [Submit(thread, c), Acquire(thread), Judge(now)]
    + if Decide(policy, hasTransport, m.rows, m.cache, c, now).Stop? then []
      else [RecordIntent, Operate(outcome)]
           + match outcome
             case Confirmed => [NoteApplied, RecordResult]
             case WriteError(_) => [RecordResult]
             case OtherException => []
  }

  /** A quiet guard: nobody holds the lock or waits for it. */
  predicate Quiet(s: State) {
    s.holder.None? && s.waiting == map[]
  }

  /** The state after some events, each of which must be enabled in turn. */
  function After(policy: Policy, hasTransport: bool, s: State, events: seq<Event>): Option<State>
    decreases |events|
  {
    if events == [] then Some(s)
    else if !Enabled(policy, hasTransport, s, events[0]) then None
    else After(policy, hasTransport, Next(policy, hasTransport, s, events[0]), events[1..])
  }

  lemma {:induction false} AfterRuns(policy: Policy, hasTransport: bool, s: State, events: seq<Event>, s': State)
    ensures After(policy, hasTransport, s, events) == Some(s') <==> Runs(policy, hasTransport, s, events, s')
    decreases |events|
  {
    if events != [] && Enabled(policy, hasTransport, s, events[0]) {
      AfterRuns(policy, hasTransport, Next(policy, hasTransport, s, events[0]), events[1..], s');
    }
  }

  lemma {:induction false} AfterOne(policy: Policy, hasTransport: bool, s: State, e: Event, rest: seq<Event>)
    requires Enabled(policy, hasTransport, s, e)
    ensures After(policy, hasTransport, s, [e] + rest) == After(policy, hasTransport, Next(policy, hasTransport, s, e), rest)
  {
    assert ([e] + rest)[1..] == rest;
  }

  lemma FirstThree(policy: Policy, hasTransport: bool, s: State, thread: nat, c: Command, now: int, rest: seq<Event>) returns (judged: State)
    requires Quiet(s) && c.id !in s.used && !EndsInIssued(c.id)
    ensures After(policy, hasTransport, s, [Submit(thread, c), Acquire(thread), Judge(now)] + rest) == After(policy, hasTransport, judged, rest)
    ensures judged.waiting == map[] && judged.bus == s.bus && judged.interrupted == s.interrupted && judged.used == s.used + {c.id}
    ensures judged.cache == CacheAfterDecide(policy, hasTransport, s.rows, s.cache, c)
    ensures var verdict := Decide(policy, hasTransport, s.rows, s.cache, c, now);
            if verdict.Stop? then judged.holder.None? && judged.rows == Appended(s.rows, RecordOf(c, verdict.status, verdict.detail, now))
            else judged.holder == Some(Holder(thread, c, Cleared(now))) && judged.rows == s.rows
  {
    var s1 := Next(policy, hasTransport, s, Submit(thread, c));
    var s2 := Next(policy, hasTransport, s1, Acquire(thread));
    judged := Next(policy, hasTransport, s2, Judge(now));
    AfterOne(policy, hasTransport, s, Submit(thread, c), [Acquire(thread), Judge(now)] + rest);
    AfterOne(policy, hasTransport, s1, Acquire(thread), [Judge(now)] + rest);
    AfterOne(policy, hasTransport, s2, Judge(now), rest);
    assert [Submit(thread, c), Acquire(thread), Judge(now)] + rest == [Submit(thread, c)] + ([Acquire(thread), Judge(now)] + rest);
    assert [Acquire(thread), Judge(now)] + rest == [Acquire(thread)] + ([Judge(now)] + rest);
    assert s2.waiting == map[];
  }

  /** Left to itself, the machine does to the journal and the cache exactly what one call of the guard does. */
  lemma {:induction false} PassIsExecute(policy: Policy, hasTransport: bool, s: State, thread: nat, c: Command, now: int, outcome: BusOutcome)
    requires Quiet(s) && c.id !in s.used && !EndsInIssued(c.id)
    ensures var m := Memory(s.rows, s.cache);
            var end := After(policy, hasTransport, s, Pass(policy, hasTransport, m, thread, c, now, outcome));
            end.Some? && Quiet(end.value)
            && Runs(policy, hasTransport, s, Pass(policy, hasTransport, m, thread, c, now, outcome), end.value)
            && Memory(end.value.rows, end.value.cache) == AfterExecute(policy, hasTransport, m, c, now, outcome)
  {
    var m := Memory(s.rows, s.cache);
    var rest := Pass(policy, hasTransport, m, thread, c, now, outcome)[3..];
    var judged := FirstThree(policy, hasTransport, s, thread, c, now, rest);
    assert Pass(policy, hasTransport, m, thread, c, now, outcome) == [Submit(thread, c), Acquire(thread), Judge(now)] + rest;
    if Decide(policy, hasTransport, s.rows, s.cache, c, now).Proceed? {
      var s4 := Next(policy, hasTransport, judged, RecordIntent);
      var s5 := Next(policy, hasTransport, s4, Operate(outcome));
      AfterOne(policy, hasTransport, judged, RecordIntent, rest[1..]);
      assert rest == [RecordIntent] + rest[1..];
      AfterOne(policy, hasTransport, s4, Operate(outcome), rest[2..]);
      assert rest[1..] == [Operate(outcome)] + rest[2..];
      match outcome {
        case Confirmed =>
          var s6 := Next(policy, hasTransport, s5, NoteApplied);
          AfterOne(policy, hasTransport, s5, NoteApplied, [RecordResult]);
          AfterOne(policy, hasTransport, s6, RecordResult, []);
          assert rest[2..] == [NoteApplied] + [RecordResult];
          assert [RecordResult] == [RecordResult] + [];
        case WriteError(_) =>
          AfterOne(policy, hasTransport, s5, RecordResult, []);
          assert rest[2..] == [RecordResult] + [];
        case OtherException =>
          assert rest[2..] == [];
      }
    } else {
      assert rest == [];
    }
    var events := Pass(policy, hasTransport, m, thread, c, now, outcome);
    AfterRuns(policy, hasTransport, s, events, After(policy, hasTransport, s, events).value);
  }
}
