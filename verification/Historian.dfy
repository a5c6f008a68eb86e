/** The in-memory historian: a list for order, a dictionary for identity, and one duplicate policy. */
module Historian {
  import opened Basics
  import opened Sorting
  import opened Measurements

  datatype Outcome = Accepted | Ignored | Conflicting

  /** The shared duplicate policy. */
  function Verdict(existing: Option<Measurement>, incoming: Measurement): Outcome {
    match existing
    case None => Accepted
    case Some(e) => if ConflictsWith(e, incoming) then Conflicting else Ignored
  }

  function Find(list: seq<Measurement>, id: string): (found: Option<Measurement>)
    ensures found.Some? ==> found.value in list && found.value.id == id
    ensures found.None? ==> forall m :: m in list ==> m.id != id
  {
    if list == [] then None
    else
      var init, last := list[..|list| - 1], list[|list| - 1];
      assert list == init + [last];
      if Find(init, id).Some? then Find(init, id) else if last.id == id then Some(last) else None
  }

  function Appended(list: seq<Measurement>, m: Measurement): seq<Measurement> {
    if Verdict(Find(list, m.id), m) == Accepted then list + [m] else list
  }

  /** The list after a sequence of appends to an empty historian. */
  function Fed(ms: seq<Measurement>): seq<Measurement> {
    if ms == [] then [] else Appended(Fed(ms[..|ms| - 1]), ms[|ms| - 1])
  }

  /** What each of those appends came to. */
  function Outcomes(ms: seq<Measurement>): (r: seq<Outcome>)
    ensures |r| == |ms|
  {
    if ms == [] then []
    else
      var init, last := ms[..|ms| - 1], ms[|ms| - 1];
      Outcomes(init) + [Verdict(Find(Fed(init), last.id), last)]
  }

  lemma AppendKeepsIdsDistinct(list: seq<Measurement>, m: Measurement)
    requires DistinctIds(list)
    ensures DistinctIds(Appended(list, m))
  {
    forall k | 0 <= k < |list| && Find(list, m.id).None? ensures list[k].id != m.id {
      assert list[k] in list;
    }
  }

  /** Identifiers stay unique, whatever is appended. */
  lemma {:induction false} FedIdsAreDistinct(ms: seq<Measurement>)
    ensures DistinctIds(Fed(ms))
  {
    if ms != [] {
      FedIdsAreDistinct(ms[..|ms| - 1]);
      AppendKeepsIdsDistinct(Fed(ms[..|ms| - 1]), ms[|ms| - 1]);
    }
  }

  // ----- the first measurement under an id stays -----

  lemma {:induction false} FindIsStable(list: seq<Measurement>, more: seq<Measurement>, id: string)
    requires Find(list, id).Some?
    ensures Find(list + more, id) == Find(list, id)
  {
    if more == [] {
      assert list + more == list;
    } else {
      var n := |more| - 1;
      FindIsStable(list, more[..n], id);
      assert (list + more)[..|list| + n] == list + more[..n];
    }
  }

  lemma {:induction false} FedGrows(ms: seq<Measurement>, k: nat)
    requires k <= |ms|
    ensures Fed(ms[..k]) <= Fed(ms)
  {
    if k < |ms| {
      var init := ms[..|ms| - 1];
      FedGrows(init, k);
      assert init[..k] == ms[..k];
    } else {
      assert ms[..k] == ms;
    }
  }

  /** Once appended, an id is known, by the measurement that came first. */
  lemma {:induction false} AppendedIsFound(list: seq<Measurement>, m: Measurement)
    ensures Find(Appended(list, m), m.id) == if Find(list, m.id).Some? then Find(list, m.id) else Some(m)
  {
    if Find(list, m.id).None? {
      assert (list + [m])[..|list|] == list;
    }
  }

  lemma {:induction false} FoundWhenFed(ms: seq<Measurement>)
    requires ms != []
    ensures var m := ms[|ms| - 1];
            && Find(Fed(ms), m.id).Some?
            && (Outcomes(ms)[|ms| - 1] == Conflicting <==> ConflictsWith(Find(Fed(ms), m.id).value, m))
  {
    AppendedIsFound(Fed(ms[..|ms| - 1]), ms[|ms| - 1]);
  }

  lemma {:induction false} FoundStaysFound(ms: seq<Measurement>, k: nat, id: string)
    requires k <= |ms| && Find(Fed(ms[..k]), id).Some?
    ensures Find(Fed(ms), id) == Find(Fed(ms[..k]), id)
  {
    FedGrows(ms, k);
    var early := Fed(ms[..k]);
    var more := Fed(ms)[|early|..];
    assert Fed(ms) == early + more;
    FindIsStable(early, more, id);
  }

  lemma {:induction false} FoundEverAfter(ms: seq<Measurement>, k: nat)
    requires k < |ms|
    ensures Find(Fed(ms), ms[k].id).Some?
    ensures Outcomes(ms)[k] == Conflicting <==> ConflictsWith(Find(Fed(ms), ms[k].id).value, ms[k])
  {
    var early := ms[..k + 1];
    OutcomesArePrefixed(ms, k);
    FoundWhenFed(early);
    FoundStaysFound(ms, k + 1, ms[k].id);
  }

  lemma {:induction false} OutcomesArePrefixed(ms: seq<Measurement>, k: nat)
    requires k < |ms|
    ensures Outcomes(ms)[k] == Outcomes(ms[..k + 1])[k]
  {
    var init := ms[..|ms| - 1];
    if k < |init| {
      OutcomesArePrefixed(init, k);
      assert init[..k + 1] == ms[..k + 1];
    } else {
      assert ms[..k + 1] == ms;
    }
  }

  /** The same observation arriving again, received whenever, is ignored for good, or conflicts as the first arrival did. */
  lemma {:induction false} RedeliveryIsKnown(ms: seq<Measurement>, k: nat, again: Measurement)
    requires k < |ms| && !ConflictsWith(ms[k], again)
    ensures Find(Fed(ms), again.id).Some?
    ensures Verdict(Find(Fed(ms), again.id), again) == if Outcomes(ms)[k] == Conflicting then Conflicting else Ignored
  {
    FoundEverAfter(ms, k);
  }

  ghost predicate AlreadyFed(ms: seq<Measurement>, n: Measurement) {
    exists k :: 0 <= k < |ms| && !ConflictsWith(ms[k], n)
  }

  /** Any sequence of observations already fed, in any order, adds nothing to the history. */
  lemma {:induction false} ReplayAddsNothing(ms: seq<Measurement>, again: seq<Measurement>)
    requires forall n :: n in again ==> AlreadyFed(ms, n)
    ensures Fed(ms + again) == Fed(ms)
  {
    if again == [] {
      assert ms + again == ms;
    } else {
      var n := again[|again| - 1];
      var fewer := again[..|again| - 1];
      assert again == fewer + [n];
      ReplayAddsNothing(ms, fewer);
      assert (ms + again)[..|ms + again| - 1] == ms + fewer;
      assert n in again && AlreadyFed(ms, n);
      var k :| 0 <= k < |ms| && !ConflictsWith(ms[k], n);
      RedeliveryIsKnown(ms, k, n);
    }
  }

  // ----- the class -----

  ghost predicate Index(list: seq<Measurement>, byId: map<string, Measurement>) {
    forall id :: Find(list, id) == Get(byId, id)
  }

  lemma IndexGrows(list: seq<Measurement>, byId: map<string, Measurement>, m: Measurement)
    requires Index(list, byId) && m.id !in byId
    ensures Index(list + [m], byId[m.id := m])
  {
    assert (list + [m])[..|list|] == list;
    forall id ensures Find(list + [m], id) == Get(byId[m.id := m], id) {
      assert Find(list, id) == Get(byId, id);
    }
  }

  lemma {:induction false} AppendIsDecided(list: seq<Measurement>, m: Measurement)
    requires DistinctIds(list)
    ensures Verdict(Find(list, m.id), m) == Accepted <==> forall e :: e in list ==> e.id != m.id
    ensures Verdict(Find(list, m.id), m) == Conflicting <==> exists e :: e in list && e.id == m.id && ConflictsWith(e, m)
    ensures Appended(list, m) == list + if Verdict(Find(list, m.id), m) == Accepted then [m] else []
  {
    var found := Find(list, m.id);
    if found.Some? {
      forall e | e in list && e.id == m.id ensures e == found.value {
        var i :| 0 <= i < |list| && list[i] == e;
        var j :| 0 <= j < |list| && list[j] == found.value;
        assert i == j;
      }
    }
  }

  class InMemoryHistorian {
    var measurements: seq<Measurement>
    var byId: map<string, Measurement>

    /** Identifiers are unique and the dictionary agrees with the list. */
    ghost predicate Valid()
      reads this
    {
      DistinctIds(measurements) && Index(measurements, byId)
    }

    constructor ()
      ensures Valid() && measurements == []
    {
      measurements, byId := [], map[];
    }

    method Append(m: Measurement) returns (outcome: Outcome)
      requires Valid()
      modifies this
      ensures Valid()
      ensures outcome == Verdict(Find(old(measurements), m.id), m)
      ensures measurements == Appended(old(measurements), m)
      ensures measurements == old(measurements) + if outcome == Accepted then [m] else []
      ensures outcome == Accepted <==> forall e :: e in old(measurements) ==> e.id != m.id
      ensures outcome == Conflicting <==> exists e :: e in old(measurements) && e.id == m.id && ConflictsWith(e, m)
    {
      AppendIsDecided(measurements, m);
      assert Find(measurements, m.id) == Get(byId, m.id);
      if m.id in byId {
        return if ConflictsWith(byId[m.id], m) then Conflicting else Ignored;
      }
      AppendKeepsIdsDistinct(measurements, m);
      IndexGrows(measurements, byId, m);
      measurements := measurements + [m];
      byId := byId[m.id := m];
      return Accepted;
    }

    /** A blank identifier is refused first, then a reversed window; otherwise exactly the wanted measurements, in order. */
    ghost predicate Answers(result: Result<seq<Measurement>, QueryError>, id: string, sensors: set<string>,
                            start: Option<int>, end: Option<int>)
      reads this
    {
      if IsBlank(id) then result == Err(BlankIdentifier)
      else if start.Some? && end.Some? && start.value > end.value then result == Err(WindowReversed)
      else
        && result.Ok? && InCanonicalOrder(result.value)
        && forall m :: m in result.value
             <==> && m in measurements && m.sensor in sensors
                  && (start.Some? ==> start.value <= m.observed.instant) && (end.Some? ==> m.observed.instant < end.value)
    }

    method QuerySensors(id: string, sensors: set<string>, start: Option<int>, end: Option<int>)
      returns (result: Result<seq<Measurement>, QueryError>)
      requires Valid()
      ensures Answers(result, id, sensors, start, end)
      ensures QueryProblem(id, start, end).None? ==> result == Ok(Query(measurements, sensors, start, end))
    {
      var problem := QueryProblem(id, start, end);
      if problem.Some? {
        return Err(problem.value);
      }
      QueryMembers(measurements, sensors, start, end);
      QueryIsInCanonicalOrder(measurements, sensors, start, end);
      return Ok(Query(measurements, sensors, start, end));
    }

    /** A blank identifier is refused; otherwise the sensor's measurement that none surpasses, or None if it has none. */
    method LatestForSensor(sensor: string) returns (result: Result<Option<Measurement>, QueryError>)
      requires Valid()
      ensures IsBlank(sensor) ==> result == Err(BlankIdentifier)
      ensures !IsBlank(sensor) ==> result == Ok(LatestOf(measurements, sensor))
      ensures result.Ok? ==>
                && (result.value.None? <==> forall m :: m in measurements ==> m.sensor != sensor)
                && (result.value.Some? ==>
                      && result.value.value in measurements && result.value.value.sensor == sensor
                      && forall m :: m in measurements && m.sensor == sensor ==>
                           m.observed.instant <= result.value.value.observed.instant)
    {
      if IsBlank(sensor) {
        return Err(BlankIdentifier);
      }
      forall m | m in measurements && m.sensor == sensor
        ensures LatestOf(measurements, sensor).Some?
        ensures m.observed.instant <= LatestOf(measurements, sensor).value.observed.instant
      {
        LatestIsNotSurpassed(measurements, sensor, m);
      }
      return Ok(LatestOf(measurements, sensor));
    }
  }
}

/** The current-state projection's one pass over the whole history. */
module Snapshot {
  import opened Basics
  import opened Measurements
  import opened Historian

  /** Per sensor, the measurement the historian itself calls the latest. */
  method LatestBySensor(list: seq<Measurement>) returns (latest: map<string, Measurement>)
    ensures forall sensor :: Get(latest, sensor) == LatestOf(list, sensor)
  {
    latest := map[];
    for k := 0 to |list|
      invariant forall sensor :: Get(latest, sensor) == LatestOf(list[..k], sensor)
    {
      var m := list[k];
      assert list[..k + 1][..k] == list[..k];
      assert Get(latest, m.sensor) == LatestOf(list[..k], m.sensor);
      if m.sensor !in latest || KeyBelow(latest[m.sensor], m) {
        latest := latest[m.sensor := m];
      }
    }
    assert list[..|list|] == list;
  }

  /** The snapshot of a fed historian shows, for each sensor, the end of that sensor's full query. */
  lemma {:induction false} SnapshotShowsTheEndOfEachQuery(ms: seq<Measurement>, latest: map<string, Measurement>, sensor: string)
    requires forall s :: Get(latest, s) == LatestOf(Fed(ms), s)
    ensures var full := Query(Fed(ms), {sensor}, None, None);
            Get(latest, sensor) == if full == [] then None else Some(full[|full| - 1])
  {
    FedIdsAreDistinct(ms);
    LatestEndsTheFullQuery(Fed(ms), sensor);
  }
}
