/** Normalised measurements: when two agree, how they are ordered, and which ones a query wants. */
module Measurements {
  import opened Basics
  import opened TextOrder
  import opened Sorting

  datatype Quality = Good | Estimated | Missing | Stale | Invalid | Unknown

  /** An aware datetime: instant and UTC offset, both in microseconds. */
  datatype Stamp = Stamp(instant: int, offset: int)

  datatype Measurement = Measurement(id: string, sensor: string, observed: Stamp, received: Stamp,
                                     value: real, unit: string, quality: Quality, source: string)

  /** Two measurements disagree about the observation; when each was received is no part of it, nor is the offset. */
  predicate ConflictsWith(existing: Measurement, incoming: Measurement) {
    || existing.id != incoming.id || existing.sensor != incoming.sensor
    || existing.observed.instant != incoming.observed.instant
    || existing.value != incoming.value || existing.unit != incoming.unit
    || existing.quality != incoming.quality || existing.source != incoming.source
  }

  /** Equality of measurements as the program compares them: datetimes by instant. */
  predicate Same(a: Measurement, b: Measurement) {
    !ConflictsWith(a, b) && a.received.instant == b.received.instant
  }

  /** Two measurements do not conflict if and only if they are one and the same but for when each was received, and for the
      offset of a stamp. */
  lemma AgreesExactlyWhenSameButReceived(a: Measurement, b: Measurement)
    ensures !ConflictsWith(a, b)
            <==> && a.observed.instant == b.observed.instant
                 && a.(observed := b.observed, received := b.received) == b
  {
  }

  /** Receiving the same observation later is no conflict; any other value, unit, quality, sensor, source or instant is. */
  lemma ReceptionAloneIsNoConflict(a: Measurement, received: Stamp, b: Measurement)
    ensures !ConflictsWith(a, a.(received := received))
    ensures !ConflictsWith(a, b) && a.observed == b.observed && a.received == b.received ==> a == b
  {
  }

  // ----- the canonical order: observed, then received, then id -----

  predicate KeyBelow(a: Measurement, b: Measurement) {
    TripleBelow(a.observed.instant, a.received.instant, a.id, b.observed.instant, b.received.instant, b.id)
  }

  predicate TripleBelow(observed: int, received: int, id: string, observed': int, received': int, id': string) {
    observed < observed' || (observed == observed' && (received < received' || (received == received' && Below(id, id'))))
  }

  lemma KeyOrderIsStrict()
    ensures StrictOrder(KeyBelow)
  {
    forall a, b | KeyBelow(a, b) ensures !KeyBelow(b, a) {
      BelowIsStrict(a.id, b.id);
    }
    forall a, b, c | KeyBelow(a, b) && KeyBelow(b, c) ensures KeyBelow(a, c) {
      if Below(a.id, b.id) && Below(b.id, c.id) {
        BelowIsTransitive(a.id, b.id, c.id);
      }
    }
  }

  ghost predicate DistinctIds(list: seq<Measurement>) {
    forall i, j :: 0 <= i < j < |list| ==> list[i].id != list[j].id
  }

  lemma DistinctIdsDifferInKey(list: seq<Measurement>)
    requires DistinctIds(list)
    ensures KeysDiffer(list, KeyBelow)
  {
    forall i, j | 0 <= i < j < |list| ensures KeyBelow(list[i], list[j]) || KeyBelow(list[j], list[i]) {
      BelowIsTotal(list[i].id, list[j].id);
    }
  }

  // ----- queries -----

  datatype QueryError = BlankIdentifier | WindowReversed

  predicate IsSpace(c: char) {
    || '\U{0009}' <= c <= '\U{000D}' || '\U{001C}' <= c <= '\U{0020}' || c == '\U{0085}' || c == '\U{00A0}' || c == '\U{1680}'
    || '\U{2000}' <= c <= '\U{200A}' || c == '\U{2028}' || c == '\U{2029}' || c == '\U{202F}' || c == '\U{205F}' || c == '\U{3000}'
  }

  predicate IsBlank(id: string) {
    forall k :: 0 <= k < |id| ==> IsSpace(id[k])
  }

  /** What both historians check before they look at any data. */
  function QueryProblem(id: string, start: Option<int>, end: Option<int>): Option<QueryError> {
    if IsBlank(id) then Some(BlankIdentifier)
    else if start.Some? && end.Some? && start.value > end.value then Some(WindowReversed)
    else None
  }

  predicate Wanted(m: Measurement, sensors: set<string>, start: Option<int>, end: Option<int>) {
    m.sensor in sensors && InWindow(m.observed.instant, start, end)
  }

  function Selected(list: seq<Measurement>, sensors: set<string>, start: Option<int>, end: Option<int>): (r: seq<Measurement>)
    ensures forall m :: m in r <==> m in list && Wanted(m, sensors, start, end)
  {
    if list == [] then []
    else
      var init, last := list[..|list| - 1], list[|list| - 1];
      assert list == init + [last];
      Selected(init, sensors, start, end) + Contribution(last, sensors, start, end)
  }

  function Contribution(m: Measurement, sensors: set<string>, start: Option<int>, end: Option<int>): seq<Measurement> {
    if Wanted(m, sensors, start, end) then [m] else []
  }

  /** The wanted measurements in canonical order. */
  function Query(list: seq<Measurement>, sensors: set<string>, start: Option<int>, end: Option<int>): seq<Measurement> {
    SortBy(Selected(list, sensors, start, end), KeyBelow)
  }

  lemma {:induction false} SelectionKeepsIdsDistinct(list: seq<Measurement>, sensors: set<string>, start: Option<int>, end: Option<int>)
    requires DistinctIds(list)
    ensures DistinctIds(Selected(list, sensors, start, end))
  {
    if list != [] {
      var n := |list| - 1;
      var init := list[..n];
      var before := Selected(init, sensors, start, end);
      SelectionKeepsIdsDistinct(init, sensors, start, end);
      forall k | 0 <= k < |before| ensures before[k].id != list[n].id {
        assert before[k] in before;
      }
    }
  }

  lemma QueryAscends(list: seq<Measurement>, sensors: set<string>, start: Option<int>, end: Option<int>)
    requires DistinctIds(list)
    ensures Ascending(Query(list, sensors, start, end), KeyBelow)
  {
    KeyOrderIsStrict();
    SelectionKeepsIdsDistinct(list, sensors, start, end);
    DistinctIdsDifferInKey(Selected(list, sensors, start, end));
    SortAscends(Selected(list, sensors, start, end), KeyBelow);
  }

  lemma {:induction false} QueryMembers(list: seq<Measurement>, sensors: set<string>, start: Option<int>, end: Option<int>)
    ensures forall m :: m in Query(list, sensors, start, end)
              <==> && m in list && m.sensor in sensors
                   && (start.Some? ==> start.value <= m.observed.instant) && (end.Some? ==> m.observed.instant < end.value)
  {
    var answer, wanted := Query(list, sensors, start, end), Selected(list, sensors, start, end);
    forall m ensures m in answer <==> m in wanted {
      assert m in multiset(answer) <==> m in multiset(wanted);
    }
  }

  /** Earlier observation first; of one instant, earlier reception first; of one reception too, the smaller id. */
  ghost predicate InCanonicalOrder(answer: seq<Measurement>) {
    forall i, j :: 0 <= i < j < |answer| ==>
      && answer[i].observed.instant <= answer[j].observed.instant
      && (answer[i].observed.instant == answer[j].observed.instant ==>
            && answer[i].received.instant <= answer[j].received.instant
            && (answer[i].received.instant == answer[j].received.instant ==> Below(answer[i].id, answer[j].id)))
  }

  lemma QueryIsInCanonicalOrder(list: seq<Measurement>, sensors: set<string>, start: Option<int>, end: Option<int>)
    requires DistinctIds(list)
    ensures InCanonicalOrder(Query(list, sensors, start, end))
  {
    var answer := Query(list, sensors, start, end);
    QueryAscends(list, sensors, start, end);
    forall i, j | 0 <= i < j < |answer| ensures KeyBelow(answer[i], answer[j]) {
    }
  }

  lemma {:induction false} SelectionSplits(list: seq<Measurement>, sensors: set<string>, start: Option<int>, middle: int, end: Option<int>)
    requires start.Some? ==> start.value <= middle
    requires end.Some? ==> middle <= end.value
    ensures multiset(Selected(list, sensors, start, end))
         == multiset(Selected(list, sensors, start, Some(middle))) + multiset(Selected(list, sensors, Some(middle), end))
  {
    if list != [] {
      var init, last := list[..|list| - 1], list[|list| - 1];
      SelectionSplits(init, sensors, start, middle, end);
      ContributionSplits(last, sensors, start, middle, end);
      BagOfAppended(Selected(init, sensors, start, end), Contribution(last, sensors, start, end));
      BagOfAppended(Selected(init, sensors, start, Some(middle)), Contribution(last, sensors, start, Some(middle)));
      BagOfAppended(Selected(init, sensors, Some(middle), end), Contribution(last, sensors, Some(middle), end));
    }
  }

  lemma BagOfAppended<T>(a: seq<T>, b: seq<T>)
    ensures multiset(a + b) == multiset(a) + multiset(b)
  {
  }

  lemma ContributionSplits(m: Measurement, sensors: set<string>, start: Option<int>, middle: int, end: Option<int>)
    requires start.Some? ==> start.value <= middle
    requires end.Some? ==> middle <= end.value
    ensures multiset(Contribution(m, sensors, start, end))
         == multiset(Contribution(m, sensors, start, Some(middle))) + multiset(Contribution(m, sensors, Some(middle), end))
  {
  }

  /** Adjacent half-open windows concatenate to their union: nothing twice, nothing lost. */
  lemma AdjacentWindowsConcatenate(list: seq<Measurement>, sensors: set<string>, start: Option<int>, middle: int, end: Option<int>)
    requires DistinctIds(list)
    requires start.Some? ==> start.value <= middle
    requires end.Some? ==> middle <= end.value
    ensures Query(list, sensors, start, Some(middle)) + Query(list, sensors, Some(middle), end) == Query(list, sensors, start, end)
  {
    var early, late := Query(list, sensors, start, Some(middle)), Query(list, sensors, Some(middle), end);
    QueryAscends(list, sensors, start, Some(middle));
    QueryAscends(list, sensors, Some(middle), end);
    QueryAscends(list, sensors, start, end);
    EarlierWindowIsBelow(list, sensors, start, middle, end);
    SelectionSplits(list, sensors, start, middle, end);
    KeyOrderIsStrict();
    AscendingIsUnique(early + late, Query(list, sensors, start, end), KeyBelow);
  }

  lemma EarlierWindowIsBelow(list: seq<Measurement>, sensors: set<string>, start: Option<int>, middle: int, end: Option<int>)
    ensures forall i, j :: 0 <= i < |Query(list, sensors, start, Some(middle))| && 0 <= j < |Query(list, sensors, Some(middle), end)| ==>
              KeyBelow(Query(list, sensors, start, Some(middle))[i], Query(list, sensors, Some(middle), end)[j])
  {
    var early, late := Query(list, sensors, start, Some(middle)), Query(list, sensors, Some(middle), end);
    QueryMembers(list, sensors, start, Some(middle));
    QueryMembers(list, sensors, Some(middle), end);
    forall i, j | 0 <= i < |early| && 0 <= j < |late| ensures KeyBelow(early[i], late[j]) {
      assert early[i] in early && late[j] in late;
    }
  }

  // ----- the latest of one sensor -----

  /** One pass, keeping the current best until something greater comes. */
  function LatestOf(list: seq<Measurement>, sensor: string): (best: Option<Measurement>)
    ensures best.Some? ==> best.value in list && best.value.sensor == sensor
  {
    if list == [] then None
    else
      var last := list[|list| - 1];
      var best := LatestOf(list[..|list| - 1], sensor);
      if last.sensor == sensor && (best.None? || KeyBelow(best.value, last)) then Some(last) else best
  }

  lemma {:induction false} LatestIsGreatest(list: seq<Measurement>, sensor: string, m: Measurement)
    requires DistinctIds(list) && m in list && m.sensor == sensor
    ensures LatestOf(list, sensor).Some?
    ensures m == LatestOf(list, sensor).value || KeyBelow(m, LatestOf(list, sensor).value)
  {
    var n := |list| - 1;
    var init, last := list[..n], list[n];
    KeyOrderIsStrict();
    if m != last {
      assert m in init;
      LatestIsGreatest(init, sensor, m);
    } else if LatestOf(init, sensor).Some? {
      var best := LatestOf(init, sensor).value;
      var k :| 0 <= k < n && init[k] == best;
      assert list[k].id != last.id;
      BelowIsTotal(best.id, last.id);
    }
  }

  /** No measurement of the sensor was observed later than its latest, nor received later among those observed with it. */
  lemma {:induction false} LatestIsNotSurpassed(list: seq<Measurement>, sensor: string, m: Measurement)
    requires DistinctIds(list) && m in list && m.sensor == sensor
    ensures LatestOf(list, sensor).Some?
    ensures var best := LatestOf(list, sensor).value;
            && m.observed.instant <= best.observed.instant
            && (m.observed.instant == best.observed.instant ==> m.received.instant <= best.received.instant)
  {
    LatestIsGreatest(list, sensor, m);
  }

  /** The latest measurement of a sensor is the last element of its full query. */
  lemma {:induction false} LatestEndsTheFullQuery(list: seq<Measurement>, sensor: string)
    requires DistinctIds(list)
    ensures var full := Query(list, {sensor}, None, None);
            LatestOf(list, sensor) == if full == [] then None else Some(full[|full| - 1])
  {
    QueryMembers(list, {sensor}, None, None);
    QueryAscends(list, {sensor}, None, None);
    LatestEndsTheAscending(list, sensor, Query(list, {sensor}, None, None));
  }

  lemma {:induction false} LatestEndsTheAscending(list: seq<Measurement>, sensor: string, full: seq<Measurement>)
    requires DistinctIds(list) && Ascending(full, KeyBelow)
    requires forall m :: m in full <==> m in list && m.sensor == sensor
    ensures LatestOf(list, sensor) == if full == [] then None else Some(full[|full| - 1])
  {
    var best := LatestOf(list, sensor);
    assert best.Some? ==> best.value in full;
    if full != [] {
      var top := full[|full| - 1];
      assert top in full;
      LatestIsGreatest(list, sensor, top);
      KeyOrderIsStrict();
      GreatestIsLast(full, KeyBelow, best.value);
    }
  }
}
