/** The command guard and its durable journal: what one command does, start to finish. */
module Control {
  import opened Basics

  datatype Status = Issued | Applied | Refused | Failed

  datatype Detail =
    | Nothing
    | WriteIssued
    | ControlDisabled
    | UnknownTarget
    | RateLimited(remaining: int)
    | NoTransport
    | BusError(code: int)

  /** A relay GeoPilot may operate; instants and intervals are in microseconds. */
  datatype Target = Target(id: string, unit: int, address: int, minimumInterval: nat)

  datatype Policy = Policy(enabled: bool, targets: seq<Target>) {
    function Lookup(id: string): (found: Option<Target>)
      ensures found.Some? ==> found.value.id == id && found.value in targets
      ensures found.None? ==> forall k :: 0 <= k < |targets| ==> targets[k].id != id
    {
      Search(id, 0)
    }

    function Search(id: string, from: nat): (found: Option<Target>)
      requires from <= |targets|
      ensures found.Some? ==> found.value.id == id && found.value in targets
      ensures found.None? ==> forall k :: from <= k < |targets| ==> targets[k].id != id
      decreases |targets| - from
    {
      if from == |targets| then None
      else if targets[from].id == id then Some(targets[from])
      else Search(id, from + 1)
    }

    /** How long a relay must rest; nothing is asked of one the policy does not know. */
    function Minimum(id: string): nat {
      var found := Lookup(id);
      if found.Some? then found.value.minimumInterval else 0
    }
  }

  datatype Command = Command(id: string, target: string, closed: bool, reason: string)

  datatype Record = Record(id: string, target: string, closed: bool, reason: string, status: Status, detail: Detail, decidedAt: int)

  function RecordOf(c: Command, status: Status, detail: Detail, now: int): Record {
    Record(c.id, c.target, c.closed, c.reason, status, detail, now)
  }

  const ISSUED_SUFFIX := "/issued"

  function IntentId(id: string): string {
    id + ISSUED_SUFFIX
  }

  function IntentOf(c: Command, now: int): Record {
    Record(IntentId(c.id), c.target, c.closed, c.reason, Issued, WriteIssued, now)
  }

  predicate EndsInIssued(id: string) {
    |id| >= |ISSUED_SUFFIX| && id[|id| - |ISSUED_SUFFIX|..] == ISSUED_SUFFIX
  }

  lemma IntentIdsAreApart(a: string, b: string)
    ensures EndsInIssued(IntentId(a))
    ensures IntentId(a) == IntentId(b) ==> a == b
  {
    assert IntentId(a)[..|a|] == a && IntentId(a)[|a|..] == ISSUED_SUFFIX;
    assert IntentId(b)[..|b|] == b;
  }

  // ----- the durable journal -----

  predicate Holds(rows: seq<Record>, id: string) {
    exists k :: 0 <= k < |rows| && rows[k].id == id
  }

  /** INSERT OR IGNORE on a unique command id. */
  function Appended(rows: seq<Record>, r: Record): seq<Record> {
    if Holds(rows, r.id) then rows else rows + [r]
  }

  function LastApplied(rows: seq<Record>, target: string): Option<int> {
    if rows == [] then None
    else
      var last := rows[|rows| - 1];
      if last.target == target && last.status == Applied then Some(last.decidedAt)
      else LastApplied(rows[..|rows| - 1], target)
  }

  datatype JournalError = NegativeLimit

  class CommandJournal {
    var rows: seq<Record>

    constructor ()
      ensures rows == []
    {
      rows := [];
    }

    method Append(r: Record)
      modifies this
      ensures rows == Appended(old(rows), r)
    {
      var present := false;
      for i := 0 to |rows|
        invariant present <==> exists k :: 0 <= k < i && rows[k].id == r.id
      {
        present := present || rows[i].id == r.id;
      }
      if !present {
        rows := rows + [r];
      }
    }

    method LastAppliedAt(target: string) returns (at: Option<int>)
      ensures at == LastApplied(rows, target)
    {
      var i := |rows|;
      assert rows[..i] == rows;
      while i > 0
        invariant 0 <= i <= |rows| && LastApplied(rows, target) == LastApplied(rows[..i], target)
      {
        i := i - 1;
        assert rows[..i + 1][..i] == rows[..i];
        if rows[i].target == target && rows[i].status == Applied {
          return Some(rows[i].decidedAt);
        }
        assert LastApplied(rows[..i + 1], target) == LastApplied(rows[..i], target);
      }
      return None;
    }

    /** The most recent records in the order they were written; all of them without a limit. */
    method Recent(limit: Option<int>) returns (result: Result<seq<Record>, JournalError>)
      ensures result.Err? <==> limit.Some? && limit.value < 0
      ensures limit.None? ==> result == Ok(rows)
      ensures limit.Some? && limit.value >= 0 ==>
                result.Ok? && result.value <= rows[Max(0, |rows| - limit.value)..] && |result.value| == Min(limit.value, |rows|)
    {
      if limit.None? {
        return Ok(rows);
      }
      if limit.value < 0 {
        return Err(NegativeLimit);
      }
      return Ok(rows[Max(0, |rows| - limit.value)..]);
    }
  }

  // ----- one decision -----

  /** What the guard knows of a relay's last operation: its cache, or else the journal. */
  function Remembered(rows: seq<Record>, cache: map<string, int>, target: string): Option<int> {
    if target in cache then Some(cache[target]) else LastApplied(rows, target)
  }

  function Cached(rows: seq<Record>, cache: map<string, int>, target: string): map<string, int> {
    var remembered := Remembered(rows, cache, target);
    if remembered.Some? then cache[target := remembered.value] else cache
  }

  datatype Verdict = Stop(status: Status, detail: Detail) | Proceed

  /** The checks made before anything is written, in order. */
  function Decide(policy: Policy, hasTransport: bool, rows: seq<Record>, cache: map<string, int>, c: Command, now: int): Verdict {
    var target := policy.Lookup(c.target);
    var previous := Remembered(rows, cache, c.target);
    if !policy.enabled then Stop(Refused, ControlDisabled)
    else if target.None? then Stop(Refused, UnknownTarget)
    else if !hasTransport then Stop(Failed, NoTransport)
    else if previous.Some? && now - previous.value < target.value.minimumInterval
    then Stop(Refused, RateLimited(target.value.minimumInterval - (now - previous.value)))
    else Proceed
  }

  // ----- what the decision means -----

  /** The whitelist entry a command is judged by: the first one with its relay's id. */
  ghost predicate Entry(policy: Policy, id: string, t: Target) {
    exists k :: 0 <= k < |policy.targets| && policy.targets[k] == t && t.id == id
                && forall j :: 0 <= j < k ==> policy.targets[j].id != id
  }

  ghost predicate Listed(policy: Policy, id: string) {
    exists k :: 0 <= k < |policy.targets| && policy.targets[k].id == id
  }

  /** Record `k` is the last APPLIED record of a relay, in the order of writing, and has this stamp. */
  ghost predicate LatestAppliedAt(rows: seq<Record>, id: string, at: int, k: int) {
    && 0 <= k < |rows| && rows[k].target == id && rows[k].status == Applied && rows[k].decidedAt == at
    && forall j :: k < j < |rows| ==> rows[j].target != id || rows[j].status != Applied
  }

  ghost predicate IsLatestApplied(rows: seq<Record>, id: string, at: int) {
    exists k :: LatestAppliedAt(rows, id, at, k)
  }

  lemma {:induction false} LastAppliedIsLatest(rows: seq<Record>, id: string, at: int)
    ensures LastApplied(rows, id) == Some(at) <==> IsLatestApplied(rows, id, at)
  {
    if rows != [] {
      var n := |rows| - 1;
      if rows[n].target == id && rows[n].status == Applied {
        LatestIsTheLastRow(rows, id, at);
      } else {
        LastAppliedIsLatest(rows[..n], id, at);
        LatestIsEarlier(rows, id, at);
      }
    }
  }

  lemma LatestIsTheLastRow(rows: seq<Record>, id: string, at: int)
    requires rows != [] && rows[|rows| - 1].target == id && rows[|rows| - 1].status == Applied
    ensures IsLatestApplied(rows, id, at) <==> rows[|rows| - 1].decidedAt == at
  {
    if rows[|rows| - 1].decidedAt == at {
      assert LatestAppliedAt(rows, id, at, |rows| - 1);
    }
  }

  lemma LatestIsEarlier(rows: seq<Record>, id: string, at: int)
    requires rows != [] && (rows[|rows| - 1].target != id || rows[|rows| - 1].status != Applied)
    ensures IsLatestApplied(rows, id, at) <==> IsLatestApplied(rows[..|rows| - 1], id, at)
  {
    var init := rows[..|rows| - 1];
    if IsLatestApplied(init, id, at) {
      var k :| LatestAppliedAt(init, id, at, k);
      assert LatestAppliedAt(rows, id, at, k);
    }
    if IsLatestApplied(rows, id, at) {
      var k :| LatestAppliedAt(rows, id, at, k);
      assert LatestAppliedAt(init, id, at, k);
    }
  }

  /** When the guard believes the relay was last operated: what it remembers, or else what the journal says. */
  ghost predicate LastOperated(rows: seq<Record>, cache: map<string, int>, id: string, at: int) {
    if id in cache then cache[id] == at else IsLatestApplied(rows, id, at)
  }

  lemma RememberedIsLastOperated(rows: seq<Record>, cache: map<string, int>, id: string, at: int)
    ensures Remembered(rows, cache, id) == Some(at) <==> LastOperated(rows, cache, id, at)
  {
    LastAppliedIsLatest(rows, id, at);
  }

  lemma LookupIsEntry(policy: Policy, id: string, t: Target)
    ensures policy.Lookup(id) == Some(t) <==> Entry(policy, id, t)
    ensures policy.Lookup(id).Some? <==> Listed(policy, id)
  {
    SearchIsFirst(policy, id, 0);
    var found := policy.Lookup(id);
    if found.Some? {
      var k :| 0 <= k < |policy.targets| && policy.targets[k] == found.value && found.value.id == id
               && forall j :: 0 <= j < k ==> policy.targets[j].id != id;
      if Entry(policy, id, t) {
        var l :| 0 <= l < |policy.targets| && policy.targets[l] == t && t.id == id
                 && forall j :: 0 <= j < l ==> policy.targets[j].id != id;
        assert k == l;
      }
    }
  }

  lemma {:induction false} SearchIsFirst(policy: Policy, id: string, from: nat)
    requires from <= |policy.targets| && forall j :: 0 <= j < from ==> policy.targets[j].id != id
    ensures policy.Search(id, from).Some? ==> Entry(policy, id, policy.Search(id, from).value)
    decreases |policy.targets| - from
  {
    if from < |policy.targets| && policy.targets[from].id != id {
      SearchIsFirst(policy, id, from + 1);
    }
  }

  /** A command reaches the bus if and only if control is enabled, its relay is on the whitelist, a transport is there,
      and the relay has rested for the whitelisted interval since it was last operated. */
  lemma ProceedsExactlyWhenAllowed(policy: Policy, hasTransport: bool, rows: seq<Record>, cache: map<string, int>, c: Command, now: int)
    ensures Decide(policy, hasTransport, rows, cache, c, now).Proceed?
            <==> && policy.enabled && hasTransport
                 && exists t :: Entry(policy, c.target, t)
                                && forall at :: LastOperated(rows, cache, c.target, at) ==> now - at >= t.minimumInterval
  {
    var found, previous := policy.Lookup(c.target), Remembered(rows, cache, c.target);
    forall t ensures found == Some(t) <==> Entry(policy, c.target, t) {
      LookupIsEntry(policy, c.target, t);
    }
    forall at ensures previous == Some(at) <==> LastOperated(rows, cache, c.target, at) {
      RememberedIsLastOperated(rows, cache, c.target, at);
    }
    if found.Some? {
      assert Entry(policy, c.target, found.value);
      assert previous.Some? ==> LastOperated(rows, cache, c.target, previous.value);
    }
  }

  /** Which refusal a command meets: control disabled, then unknown relay, then no transport, then too early. */
  lemma RefusalsAreOrdered(policy: Policy, hasTransport: bool, rows: seq<Record>, cache: map<string, int>, c: Command, now: int)
    ensures var verdict := Decide(policy, hasTransport, rows, cache, c, now);
            && (!policy.enabled ==> verdict == Stop(Refused, ControlDisabled))
            && (policy.enabled && !Listed(policy, c.target) ==> verdict == Stop(Refused, UnknownTarget))
            && (policy.enabled && Listed(policy, c.target) && !hasTransport ==> verdict == Stop(Failed, NoTransport))
            && (policy.enabled && hasTransport ==>
                  forall t, at :: Entry(policy, c.target, t) && LastOperated(rows, cache, c.target, at) && now - at < t.minimumInterval ==>
                    verdict == Stop(Refused, RateLimited(at + t.minimumInterval - now)))
  {
    forall t ensures policy.Lookup(c.target) == Some(t) <==> Entry(policy, c.target, t) {
      LookupIsEntry(policy, c.target, t);
    }
    LookupIsEntry(policy, c.target, Target("", 0, 0, 0));
    forall at ensures Remembered(rows, cache, c.target) == Some(at) <==> LastOperated(rows, cache, c.target, at) {
      RememberedIsLastOperated(rows, cache, c.target, at);
    }
  }

  /** Whether the guard got as far as asking when the relay was last operated. */
  predicate Consulted(policy: Policy, hasTransport: bool, c: Command) {
    policy.enabled && policy.Lookup(c.target).Some? && hasTransport
  }

  function CacheAfterDecide(policy: Policy, hasTransport: bool, rows: seq<Record>, cache: map<string, int>, c: Command): map<string, int> {
    if Consulted(policy, hasTransport, c) then Cached(rows, cache, c.target) else cache
  }

  lemma EntryIsFound(policy: Policy, id: string)
    ensures forall t :: Entry(policy, id, t) ==> policy.Lookup(id) == Some(t)
  {
    forall t | Entry(policy, id, t) ensures policy.Lookup(id) == Some(t) {
      LookupIsEntry(policy, id, t);
    }
  }

  lemma CachedIsLastOperated(rows: seq<Record>, cache: map<string, int>, target: string)
    ensures var after := Cached(rows, cache, target); forall id :: id in after ==> LastOperated(rows, cache, id, after[id])
  {
    var remembered := Remembered(rows, cache, target);
    if remembered.Some? {
      RememberedIsLastOperated(rows, cache, target, remembered.value);
    }
  }

  // ----- one command, uninterrupted -----

  /** How the bus answers a write: confirmed, a reported write error, or some other exception. */
  datatype BusOutcome = Confirmed | WriteError(code: int) | OtherException

  datatype Memory = Memory(rows: seq<Record>, cache: map<string, int>)

  function AfterExecute(policy: Policy, hasTransport: bool, m: Memory, c: Command, now: int, outcome: BusOutcome): Memory {
    var cache := CacheAfterDecide(policy, hasTransport, m.rows, m.cache, c);
    var verdict := Decide(policy, hasTransport, m.rows, m.cache, c, now);
    if verdict.Stop? then Memory(Appended(m.rows, RecordOf(c, verdict.status, verdict.detail, now)), cache)
    else
      var rows := Appended(m.rows, IntentOf(c, now));
      match outcome
      case Confirmed => Memory(Appended(rows, RecordOf(c, Applied, Nothing, now)), cache[c.target := now])
      case WriteError(code) => Memory(Appended(rows, RecordOf(c, Failed, BusError(code), now)), cache)
      case OtherException => Memory(rows, cache)
  }

  lemma AppendedNew(rows: seq<Record>, r: Record)
    requires forall k :: 0 <= k < |rows| ==> rows[k].id != r.id
    ensures Appended(rows, r) == rows + [r]
  {
  }

  /** A command that reaches the bus under names the journal does not hold leaves its intent, then its outcome behind. */
  lemma ProceedingIsRecorded(policy: Policy, hasTransport: bool, m: Memory, c: Command, now: int, outcome: BusOutcome)
    requires Decide(policy, hasTransport, m.rows, m.cache, c, now).Proceed?
    requires forall k :: 0 <= k < |m.rows| ==> m.rows[k].id != c.id && m.rows[k].id != c.id + "/issued"
    ensures var after, intent := AfterExecute(policy, hasTransport, m, c, now, outcome),
                Record(c.id + "/issued", c.target, c.closed, c.reason, Issued, WriteIssued, now);
            match outcome
            case Confirmed =>
              && after.rows == m.rows + [intent, Record(c.id, c.target, c.closed, c.reason, Applied, Nothing, now)]
              && c.target in after.cache && after.cache[c.target] == now
            case WriteError(code) =>
              after.rows == m.rows + [intent, Record(c.id, c.target, c.closed, c.reason, Failed, BusError(code), now)]
            case OtherException => after.rows == m.rows + [intent]
  {
    var intent := IntentOf(c, now);
    AppendedNew(m.rows, intent);
    var rows := m.rows + [intent];
    assert |intent.id| == |c.id| + |ISSUED_SUFFIX|;
    forall status, detail ensures Appended(rows, RecordOf(c, status, detail, now)) == rows + [RecordOf(c, status, detail, now)] {
      AppendedNew(rows, RecordOf(c, status, detail, now));
    }
  }

  /** Whatever the cache holds afterwards is when that relay was last operated, this command's operation included. */
  lemma CacheHoldsOperations(policy: Policy, hasTransport: bool, m: Memory, c: Command, now: int, outcome: BusOutcome)
    ensures var after, operated := AfterExecute(policy, hasTransport, m, c, now, outcome),
                Decide(policy, hasTransport, m.rows, m.cache, c, now).Proceed? && outcome.Confirmed?;
            forall id :: id in after.cache ==>
              if operated && id == c.target then after.cache[id] == now else LastOperated(m.rows, m.cache, id, after.cache[id])
  {
    CachedIsLastOperated(m.rows, m.cache, c.target);
  }

  /** What the transport is asked to do. */
  datatype CoilRequest = CoilRequest(id: string, target: string, unit: int, address: int, closed: bool)

  class ControlService {
    const policy: Policy
    const hasTransport: bool
    const journal: CommandJournal
    var lastApplied: map<string, int>
    /** Every request handed to the transport, in order. */
    var requests: seq<CoilRequest>

    constructor (policy: Policy, hasTransport: bool, journal: CommandJournal)
      ensures this.policy == policy && this.hasTransport == hasTransport && this.journal == journal
      ensures lastApplied == map[] && requests == []
    {
      this.policy, this.hasTransport, this.journal, lastApplied, requests := policy, hasTransport, journal, map[], [];
    }

    method Remember(target: string) returns (previous: Option<int>)
      modifies this`lastApplied
      ensures previous == Remembered(journal.rows, old(lastApplied), target)
      ensures lastApplied == Cached(journal.rows, old(lastApplied), target)
    {
      if target in lastApplied {
        return Some(lastApplied[target]);
      }
      previous := journal.LastAppliedAt(target);
      if previous.Some? {
        lastApplied := lastApplied[target := previous.value];
      }
    }

    /**
     * One command, decided, executed and recorded. Refusals and reported failures are returned as records; only another
     * exception escapes, as None. A relay that no entry of the whitelist names is refused: nothing is asked of the
     * transport, no intent is written, and the cache stays as it was.
     */
    method Execute(c: Command, now: int, outcome: BusOutcome) returns (record: Option<Record>)
      modifies this, journal
      ensures Memory(journal.rows, lastApplied)
              == AfterExecute(policy, hasTransport, Memory(old(journal.rows), old(lastApplied)), c, now, outcome)
      ensures var verdict := Decide(policy, hasTransport, old(journal.rows), old(lastApplied), c, now);
              record == if verdict.Stop? then Some(RecordOf(c, verdict.status, verdict.detail, now))
                        else match outcome
                          case Confirmed => Some(RecordOf(c, Applied, Nothing, now))
                          case WriteError(code) => Some(RecordOf(c, Failed, BusError(code), now))
                          case OtherException => None
      ensures record.Some? ==>
                && record.value.id == c.id && record.value.target == c.target && record.value.closed == c.closed
                && record.value.reason == c.reason && record.value.decidedAt == now
      ensures (forall k :: 0 <= k < |policy.targets| ==> policy.targets[k].id != c.target) ==>
                && record.Some? && record.value.status == Refused && lastApplied == old(lastApplied) && requests == old(requests)
                && (journal.rows == old(journal.rows) || journal.rows == old(journal.rows) + [record.value])
      ensures var verdict := Decide(policy, hasTransport, old(journal.rows), old(lastApplied), c, now);
              && (verdict.Stop? ==> requests == old(requests))
              && (verdict.Proceed? ==> forall t :: Entry(policy, c.target, t) ==>
                    requests == old(requests) + [CoilRequest(c.id, c.target, t.unit, t.address, c.closed)])
    {
      if !policy.enabled {
        record := RecordOutcome(c, Refused, ControlDisabled, now);
        return;
      }
      var target := policy.Lookup(c.target);
      if target.None? {
        record := RecordOutcome(c, Refused, UnknownTarget, now);
        return;
      }
      if !hasTransport {
        record := RecordOutcome(c, Failed, NoTransport, now);
        return;
      }
      EntryIsFound(policy, c.target);
      var previous := Remember(target.value.id);
      if previous.Some? {
        var elapsed := now - previous.value;
        if elapsed < target.value.minimumInterval {
          record := RecordOutcome(c, Refused, RateLimited(target.value.minimumInterval - elapsed), now);
          return;
        }
      }
      journal.Append(IntentOf(c, now));
      requests := requests + [CoilRequest(c.id, target.value.id, target.value.unit, target.value.address, c.closed)];
      match outcome {
        case OtherException =>
          return None;
        case WriteError(code) =>
          record := RecordOutcome(c, Failed, BusError(code), now);
        case Confirmed =>
          lastApplied := lastApplied[target.value.id := now];
          record := RecordOutcome(c, Applied, Nothing, now);
      }
    }

    method RecordOutcome(c: Command, status: Status, detail: Detail, now: int) returns (record: Option<Record>)
      modifies journal
      ensures record == Some(RecordOf(c, status, detail, now))
      ensures journal.rows == Appended(old(journal.rows), record.value)
    {
      journal.Append(RecordOf(c, status, detail, now));
      return Some(RecordOf(c, status, detail, now));
    }
  }
}
