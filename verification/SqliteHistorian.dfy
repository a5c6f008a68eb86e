/** The durable historian, over a table of rows, and why no caller can tell it from the in-memory one. */
module SqliteHistorian {
  import opened Basics
  import opened TextOrder
  import opened Sorting
  import opened Division
  import opened Measurements
  import opened Historian

  datatype Row = Row(id: string, sensor: string, observedUs: int, observedOffsetS: int, receivedUs: int, receivedOffsetS: int,
                     value: real, unit: string, quality: Quality, source: string)

  // ----- storage -----

  /** `int(offset.total_seconds())`: whole seconds, toward zero. */
  function OffsetSeconds(offset: int): int {
    TruncatedQuotient(offset, SECOND)
  }

  function ToRow(m: Measurement): Row {
    Row(m.id, m.sensor, m.observed.instant, OffsetSeconds(m.observed.offset), m.received.instant, OffsetSeconds(m.received.offset),
        m.value, m.unit, m.quality, m.source)
  }

  function FromRow(r: Row): Measurement {
    Measurement(r.id, r.sensor, Stamp(r.observedUs, r.observedOffsetS * SECOND), Stamp(r.receivedUs, r.receivedOffsetS * SECOND),
                r.value, r.unit, r.quality, r.source)
  }

  /** A stored measurement reads back equal; it reads back identical exactly when its offsets are whole seconds. */
  lemma StorageRoundTrip(m: Measurement)
    ensures Same(m, FromRow(ToRow(m)))
    ensures FromRow(ToRow(m)) == m <==> m.observed.offset % SECOND == 0 && m.received.offset % SECOND == 0
  {
    OffsetRoundTrip(m.observed.offset);
    OffsetRoundTrip(m.received.offset);
  }

  lemma OffsetRoundTrip(offset: int)
    ensures OffsetSeconds(offset) * SECOND == offset <==> offset % SECOND == 0
  {
  }

  /** The stored offset is the whole number of seconds nearest the offset on the side of zero. */
  lemma OffsetsTruncateTowardZero(offset: int)
    ensures var kept := OffsetSeconds(offset) * 1_000_000;
            && (offset >= 0 ==> 0 <= kept <= offset < kept + 1_000_000)
            && (offset <= 0 ==> kept - 1_000_000 < offset <= kept <= 0)
  {
  }

  /** The duplicate policy cannot see what storage loses. */
  lemma StoredConflictsAlike(m: Measurement, incoming: Measurement)
    ensures ConflictsWith(FromRow(ToRow(m)), incoming) <==> ConflictsWith(m, incoming)
  {
  }

  function Rows(list: seq<Measurement>): (rows: seq<Row>)
    ensures |rows| == |list|
    ensures forall k :: 0 <= k < |rows| ==> rows[k] == ToRow(list[k])
  {
    Mapped(list, ToRow)
  }

  // ----- appending -----

  /** `SELECT ... WHERE id = ?`. */
  function FetchById(rows: seq<Row>, id: string): Option<Measurement> {
    if rows == [] then None
    else
      var earlier := FetchById(rows[..|rows| - 1], id);
      var last := rows[|rows| - 1];
      if earlier.Some? then earlier else if last.id == id then Some(FromRow(last)) else None
  }

  function RowsAppended(rows: seq<Row>, m: Measurement): seq<Row> {
    if Verdict(FetchById(rows, m.id), m) == Accepted then rows + [ToRow(m)] else rows
  }

  function RowsFed(ms: seq<Measurement>): seq<Row> {
    if ms == [] then [] else RowsAppended(RowsFed(ms[..|ms| - 1]), ms[|ms| - 1])
  }

  function RowOutcomes(ms: seq<Measurement>): seq<Outcome> {
    if ms == [] then []
    else
      var init, last := ms[..|ms| - 1], ms[|ms| - 1];
      RowOutcomes(init) + [Verdict(FetchById(RowsFed(init), last.id), last)]
  }

  lemma {:induction false} FetchMirrorsFind(list: seq<Measurement>, id: string)
    ensures FetchById(Rows(list), id) == if Find(list, id).Some? then Some(FromRow(ToRow(Find(list, id).value))) else None
  {
    if list != [] {
      var n := |list| - 1;
      assert Rows(list)[..n] == Rows(list[..n]);
      FetchMirrorsFind(list[..n], id);
    }
  }

  lemma {:induction false} VerdictsAgree(list: seq<Measurement>, m: Measurement)
    ensures Verdict(FetchById(Rows(list), m.id), m) == Verdict(Find(list, m.id), m)
  {
    FetchMirrorsFind(list, m.id);
    if Find(list, m.id).Some? {
      StoredConflictsAlike(Find(list, m.id).value, m);
    }
  }

  /** Over any sequence of appends both historians accept, ignore and reject the same measurements and hold the same history. */
  lemma {:induction false} AppendsAreIndistinguishable(ms: seq<Measurement>)
    ensures RowOutcomes(ms) == Outcomes(ms)
    ensures RowsFed(ms) == Rows(Fed(ms))
  {
    if ms != [] {
      var init, last := ms[..|ms| - 1], ms[|ms| - 1];
      AppendsAreIndistinguishable(init);
      VerdictsAgree(Fed(init), last);
      MappedConcatenation(Fed(init), [last], ToRow);
    }
  }

  // ----- queries -----

  predicate RowWanted(r: Row, sensors: set<string>, start: Option<int>, end: Option<int>) {
    r.sensor in sensors && InWindow(r.observedUs, start, end)
  }

  /** The rows of a WHERE clause, in table order. */
  function RowsSelected(rows: seq<Row>, sensors: set<string>, start: Option<int>, end: Option<int>): seq<Row> {
    if rows == [] then []
    else
      var last := rows[|rows| - 1];
      RowsSelected(rows[..|rows| - 1], sensors, start, end) + if RowWanted(last, sensors, start, end) then [last] else []
  }

  predicate RowKeyBelow(a: Row, b: Row) {
    TripleBelow(a.observedUs, a.receivedUs, a.id, b.observedUs, b.receivedUs, b.id)
  }

  /** What ORDER BY promises: the selected rows, none before a row it sorts after. Ties are in any order. */
  ghost predicate OrderedBy(answer: seq<Row>, selected: seq<Row>) {
    && multiset(answer) == multiset(selected)
    && forall i, j :: 0 <= i < j < |answer| ==> !RowKeyBelow(answer[j], answer[i])
  }

  ghost predicate RowIdsDiffer(rows: seq<Row>) {
    forall i, j :: 0 <= i < j < |rows| ==> rows[i].id != rows[j].id
  }

  lemma {:induction false} SelectionMirrors(list: seq<Measurement>, sensors: set<string>, start: Option<int>, end: Option<int>)
    ensures RowsSelected(Rows(list), sensors, start, end) == Rows(Selected(list, sensors, start, end))
  {
    if list != [] {
      var n := |list| - 1;
      var before := Selected(list[..n], sensors, start, end);
      assert Rows(list)[..n] == Rows(list[..n]);
      SelectionMirrors(list[..n], sensors, start, end);
      MappedConcatenation(before, [list[n]], ToRow);
      assert Wanted(list[n], sensors, start, end) <==> RowWanted(Rows(list)[n], sensors, start, end);
      if !Wanted(list[n], sensors, start, end) {
        assert Selected(list, sensors, start, end) == before;
      }
    }
  }

  lemma {:induction false} SortMirrors(list: seq<Measurement>)
    ensures Rows(SortBy(list, KeyBelow)) == SortBy(Rows(list), RowKeyBelow)
  {
    SortMaps(list, ToRow, KeyBelow, RowKeyBelow);
  }

  lemma {:induction false} MirroredAscends(list: seq<Measurement>)
    requires Ascending(list, KeyBelow)
    ensures Ascending(Rows(list), RowKeyBelow)
  {
  }

  lemma TwiceInBag<T>(s: seq<T>, i: nat, j: nat)
    requires i < j < |s| && s[i] == s[j]
    ensures multiset(s)[s[i]] >= 2
  {
    assert s == s[..j] + s[j..];
    assert s[i] == s[..j][i] && s[j] == s[j..][0];
    assert s[i] in multiset(s[..j]) && s[i] in multiset(s[j..]);
  }

  lemma OnceInBag(rows: seq<Row>, r: Row)
    requires RowIdsDiffer(rows)
    ensures multiset(rows)[r] <= 1
  {
    if r in rows {
      var k :| 0 <= k < |rows| && rows[k] == r;
      assert rows == rows[..k] + [r] + rows[k + 1..];
      assert r !in rows[..k] && r !in rows[k + 1..];
      assert multiset(rows) == multiset(rows[..k]) + multiset{r} + multiset(rows[k + 1..]);
    }
  }

  /** A rearrangement of rows with different ids has different ids. */
  lemma RearrangedIdsDiffer(answer: seq<Row>, selected: seq<Row>)
    requires RowIdsDiffer(selected) && multiset(answer) == multiset(selected)
    ensures RowIdsDiffer(answer)
  {
    forall i, j | 0 <= i < j < |answer| ensures answer[i].id != answer[j].id {
      if answer[i] == answer[j] {
        TwiceInBag(answer, i, j);
        OnceInBag(selected, answer[i]);
      } else {
        assert answer[i] in multiset(selected) && answer[j] in multiset(selected);
        assert answer[i] in selected && answer[j] in selected;
      }
    }
  }

  lemma OrderedAscends(answer: seq<Row>)
    requires RowIdsDiffer(answer)
    requires forall i, j :: 0 <= i < j < |answer| ==> !RowKeyBelow(answer[j], answer[i])
    ensures Ascending(answer, RowKeyBelow)
  {
    forall i, j | 0 <= i < j < |answer| ensures RowKeyBelow(answer[i], answer[j]) {
      assert answer[i].id != answer[j].id;
      BelowIsTotal(answer[i].id, answer[j].id);
    }
  }

  lemma RowOrderIsAsymmetric()
    ensures forall a, b :: RowKeyBelow(a, b) ==> !RowKeyBelow(b, a)
  {
    forall a, b | RowKeyBelow(a, b) ensures !RowKeyBelow(b, a) {
      BelowIsStrict(a.id, b.id);
    }
  }

  /** However the database breaks ties, its answer is the in-memory answer, row for row. */
  lemma {:induction false} QueriesAreIndistinguishable(ms: seq<Measurement>, sensors: set<string>, start: Option<int>, end: Option<int>, answer: seq<Row>)
    requires OrderedBy(answer, RowsSelected(RowsFed(ms), sensors, start, end))
    ensures answer == Rows(Query(Fed(ms), sensors, start, end))
  {
    var list := Fed(ms);
    var selected := Selected(list, sensors, start, end);
    AppendsAreIndistinguishable(ms);
    FedIdsAreDistinct(ms);
    SelectionMirrors(list, sensors, start, end);
    SelectionKeepsIdsDistinct(list, sensors, start, end);
    RearrangedIdsDiffer(answer, Rows(selected));
    OrderedAscends(answer);
    QueryAscends(list, sensors, start, end);
    MirroredAscends(Query(list, sensors, start, end));
    SortMirrors(selected);
    RowOrderIsAsymmetric();
    AscendingIsUnique(answer, Rows(Query(list, sensors, start, end)), RowKeyBelow);
  }

  /** Read back, an answer is the in-memory answer element by element, in the program's equality. */
  lemma AnswersReadBackEqual(list: seq<Measurement>, k: nat)
    requires k < |list|
    ensures Same(list[k], FromRow(Rows(list)[k]))
  {
    StorageRoundTrip(list[k]);
  }

  /** `ORDER BY ... DESC LIMIT 1`: a row of the sensor below which every other one sorts, or nothing. */
  ghost predicate IsTop(rows: seq<Row>, sensor: string, top: Option<Row>) {
    match top
    case None => forall r :: r in rows ==> r.sensor != sensor
    case Some(t) => t in rows && t.sensor == sensor && forall r :: r in rows && r.sensor == sensor ==> !RowKeyBelow(t, r)
  }

  lemma {:induction false} LatestIsIndistinguishable(ms: seq<Measurement>, sensor: string, top: Option<Row>)
    requires IsTop(RowsFed(ms), sensor, top)
    ensures top == match LatestOf(Fed(ms), sensor) case None => None case Some(m) => Some(ToRow(m))
  {
    AppendsAreIndistinguishable(ms);
    FedIdsAreDistinct(ms);
    TopIsLatest(Fed(ms), sensor, top);
  }

  lemma {:induction false} TopIsLatest(list: seq<Measurement>, sensor: string, top: Option<Row>)
    requires DistinctIds(list) && IsTop(Rows(list), sensor, top)
    ensures top == match LatestOf(list, sensor) case None => None case Some(m) => Some(ToRow(m))
  {
    var rows, best := Rows(list), LatestOf(list, sensor);
    if best.Some? {
      var b :| 0 <= b < |list| && list[b] == best.value;
      assert rows[b] in rows && rows[b].sensor == sensor;
    }
    if top.Some? {
      var t :| 0 <= t < |rows| && rows[t] == top.value;
      assert list[t] in list;
      LatestIsGreatest(list, sensor, list[t]);
    }
  }

  // ----- the class -----

  class DurableHistorian {
    var rows: seq<Row>

    constructor ()
      ensures rows == []
    {
      rows := [];
    }

    method Append(m: Measurement) returns (outcome: Outcome)
      modifies this
      ensures outcome == Verdict(FetchById(old(rows), m.id), m)
      ensures rows == RowsAppended(old(rows), m)
    {
      var existing := FetchById(rows, m.id);
      if existing.Some? {
        return if ConflictsWith(existing.value, m) then Conflicting else Ignored;
      }
      rows := rows + [ToRow(m)];
      return Accepted;
    }
  }
}
