/** The journal of configuration epochs, and what its silence about a sensor promises. */
module ProvenanceJournal {
  import opened Basics
  import opened TextOrder
  import opened Sorting
  import opened Provenance

  /** Everything that affects a stored value, order aside: what the digest is taken over. */
  type Fingerprint = multiset<Sensor>

  datatype Epoch = Epoch(sequence: nat, fingerprint: Fingerprint, recordedAt: int, offset: int, sensors: seq<Sensor>, note: string)

  // ----- rows as they come back -----

  predicate RowBelow(a: Sensor, b: Sensor) {
    Below(a.id, b.id) || (a.id == b.id && Rank(a.kind) < Rank(b.kind))
  }

  /** The order is the query's own: sensor id, then the kind's name. */
  lemma RowOrderSpelled(a: Sensor, b: Sensor)
    ensures RowBelow(a, b) <==> Below(a.id, b.id) || (a.id == b.id && Below(KindName(a.kind), KindName(b.kind)))
  {
    RankIsNameOrder(a.kind, b.kind);
  }

  lemma RowOrderIsStrict()
    ensures StrictOrder(RowBelow)
  {
    forall a, b | RowBelow(a, b) ensures !RowBelow(b, a) {
      BelowIsStrict(a.id, b.id);
    }
    forall a, b, c | RowBelow(a, b) && RowBelow(b, c) ensures RowBelow(a, c) {
      if Below(a.id, b.id) && Below(b.id, c.id) {
        BelowIsTransitive(a.id, b.id, c.id);
      }
    }
  }

  /** An epoch's rows as they are read back, by sensor id and kind. */
  function Hydrated(sensors: seq<Sensor>): (rows: seq<Sensor>)
    ensures multiset(rows) == multiset(sensors)
  {
    SortBy(sensors, RowBelow)
  }

  /** The table's primary key: one row a sensor and kind. */
  predicate DistinctKeys(sensors: seq<Sensor>) {
    forall i, j :: 0 <= i < j < |sensors| ==> sensors[i].id != sensors[j].id || sensors[i].kind != sensors[j].kind
  }

  lemma HydrationAscends(sensors: seq<Sensor>)
    requires DistinctKeys(sensors)
    ensures Ascending(Hydrated(sensors), RowBelow) && DistinctKeys(Hydrated(sensors))
  {
    RowOrderIsStrict();
    forall i, j | 0 <= i < j < |sensors| ensures RowBelow(sensors[i], sensors[j]) || RowBelow(sensors[j], sensors[i]) {
      BelowIsTotal(sensors[i].id, sensors[j].id);
    }
    SortAscends(sensors, RowBelow);
    var rows := Hydrated(sensors);
    forall i, j | 0 <= i < j < |rows| ensures rows[i].id != rows[j].id || rows[i].kind != rows[j].kind {
      assert RowBelow(rows[i], rows[j]);
      BelowIsStrict(rows[i].id, rows[j].id);
    }
  }

  /** Two configurations have one digest exactly when they are stored as the same rows. */
  lemma FingerprintDecidesRows(a: seq<Sensor>, b: seq<Sensor>)
    requires DistinctKeys(a) && DistinctKeys(b)
    ensures multiset(a) == multiset(b) <==> Hydrated(a) == Hydrated(b)
  {
    RowOrderIsStrict();
    HydrationAscends(a);
    HydrationAscends(b);
    if multiset(a) == multiset(b) {
      AscendingIsUnique(Hydrated(a), Hydrated(b), RowBelow);
    }
  }

  // ----- queries -----

  /** The last epoch written with a stamp no later than the moment. */
  function InEffect(epochs: seq<Epoch>, moment: int): (found: Option<Epoch>)
    ensures found.Some? ==> found.value in epochs && found.value.recordedAt <= moment
  {
    if epochs == [] then None
    else
      var last := epochs[|epochs| - 1];
      if last.recordedAt <= moment then Some(last) else InEffect(epochs[..|epochs| - 1], moment)
  }

  function StampedWithin(epochs: seq<Epoch>, start: int, end: int): (inside: seq<Epoch>)
    ensures forall e :: e in inside <==> e in epochs && start < e.recordedAt <= end
  {
    if epochs == [] then []
    else
      var init, last := epochs[..|epochs| - 1], epochs[|epochs| - 1];
      assert epochs == init + [last];
      StampedWithin(init, start, end) + if start < last.recordedAt <= end then [last] else []
  }

  /** Every epoch a window touches, the one in effect when it opened first. */
  function Spanning(epochs: seq<Epoch>, start: int, end: int): seq<Epoch> {
    var opening := InEffect(epochs, start);
    (if opening.Some? then [opening.value] else []) + StampedWithin(epochs, start, end)
  }

  // ----- what the queries answer -----

  /** Epoch `k` is in effect at the moment: stamped no later, and every epoch written after it is stamped later. */
  ghost predicate Rules(epochs: seq<Epoch>, moment: int, k: int) {
    && 0 <= k < |epochs| && epochs[k].recordedAt <= moment
    && forall j :: k < j < |epochs| ==> epochs[j].recordedAt > moment
  }

  lemma {:induction false} RulingIsInEffect(epochs: seq<Epoch>, moment: int, k: int)
    requires Rules(epochs, moment, k)
    ensures InEffect(epochs, moment) == Some(epochs[k])
  {
    var n := |epochs| - 1;
    if k < n {
      RulingIsInEffect(epochs[..n], moment, k);
    }
  }

  lemma {:induction false} RulingExists(epochs: seq<Epoch>, moment: int) returns (k: int)
    ensures if k < 0 then forall j :: 0 <= j < |epochs| ==> epochs[j].recordedAt > moment else Rules(epochs, moment, k)
  {
    k := |epochs| - 1;
    while k >= 0 && epochs[k].recordedAt > moment
      invariant -1 <= k < |epochs| && forall j :: k < j < |epochs| ==> epochs[j].recordedAt > moment
    {
      k := k - 1;
    }
  }

  lemma {:induction false} NothingInEffect(epochs: seq<Epoch>, moment: int)
    requires forall j :: 0 <= j < |epochs| ==> epochs[j].recordedAt > moment
    ensures InEffect(epochs, moment) == None
  {
    if epochs != [] {
      NothingInEffect(epochs[..|epochs| - 1], moment);
    }
  }

  /** An epoch stays in effect from the instant it is recorded until a later one takes over; before the first there is none. */
  lemma {:induction false} InEffectIsTheRuling(epochs: seq<Epoch>, moment: int)
    ensures InEffect(epochs, moment) == None <==> forall k :: 0 <= k < |epochs| ==> epochs[k].recordedAt > moment
    ensures forall e :: InEffect(epochs, moment) == Some(e) <==> exists k :: Rules(epochs, moment, k) && epochs[k] == e
  {
    var k := RulingExists(epochs, moment);
    if k < 0 {
      NothingInEffect(epochs, moment);
    } else {
      RulingIsInEffect(epochs, moment, k);
    }
    forall e, j | Rules(epochs, moment, j) && epochs[j] == e ensures InEffect(epochs, moment) == Some(e) {
      RulingIsInEffect(epochs, moment, j);
    }
  }

  ghost predicate InWritingOrder(epochs: seq<Epoch>) {
    forall i, j :: 0 <= i < j < |epochs| ==> epochs[i].sequence < epochs[j].sequence
  }

  lemma {:induction false} StampedWithinAreOlder(epochs: seq<Epoch>, start: int, end: int, e: Epoch)
    requires InWritingOrder(epochs) && epochs != [] && e in StampedWithin(epochs[..|epochs| - 1], start, end)
    ensures e.sequence < epochs[|epochs| - 1].sequence
  {
    var init := epochs[..|epochs| - 1];
    assert e in init;
    var k :| 0 <= k < |init| && init[k] == e;
    assert epochs[k] == e;
  }

  lemma {:induction false} StampedWithinInOrder(epochs: seq<Epoch>, start: int, end: int)
    requires InWritingOrder(epochs)
    ensures InWritingOrder(StampedWithin(epochs, start, end))
  {
    if epochs != [] {
      var n := |epochs| - 1;
      var init, inside := epochs[..n], StampedWithin(epochs[..n], start, end);
      StampedWithinInOrder(init, start, end);
      forall i | 0 <= i < |inside| ensures inside[i].sequence < epochs[n].sequence {
        StampedWithinAreOlder(epochs, start, end, inside[i]);
      }
    }
  }

  /** The epochs a window touches are exactly the one in effect when it opened and those stamped inside, the latter in
      writing order. */
  lemma {:induction false} SpanningIsWhatIsTouched(epochs: seq<Epoch>, start: int, end: int, e: Epoch)
    requires InWritingOrder(epochs)
    ensures e in Spanning(epochs, start, end)
            <==> (exists k :: Rules(epochs, start, k) && epochs[k] == e) || (e in epochs && start < e.recordedAt <= end)
    ensures var opening := if InEffect(epochs, start).Some? then 1 else 0;
            InWritingOrder(Spanning(epochs, start, end)[opening..])
  {
    InEffectIsTheRuling(epochs, start);
    StampedWithinInOrder(epochs, start, end);
    var opening := if InEffect(epochs, start).Some? then 1 else 0;
    assert Spanning(epochs, start, end)[opening..] == StampedWithin(epochs, start, end);
  }

  lemma PrependedInOrder(o: Epoch, inside: seq<Epoch>)
    requires InWritingOrder(inside) && forall k :: 0 <= k < |inside| ==> o.sequence < inside[k].sequence
    ensures InWritingOrder([o] + inside)
  {
    var all := [o] + inside;
    forall i, j | 0 <= i < j < |all| ensures all[i].sequence < all[j].sequence {
      assert all[j] == inside[j - 1];
    }
  }

  lemma FirstIsOldest(o: Epoch, inside: seq<Epoch>, k: int)
    requires InWritingOrder([o] + inside) && 0 <= k < |inside|
    ensures o.sequence < inside[k].sequence
  {
    var all := [o] + inside;
    assert all[0].sequence < all[k + 1].sequence;
  }

  /** The whole list is in writing order if and only if nothing written before the epoch in effect when the window opened
      is stamped inside the window. */
  lemma {:induction false} SpanningInOrderExactlyWhenOpeningIsOldest(epochs: seq<Epoch>, start: int, end: int)
    requires InWritingOrder(epochs)
    ensures InWritingOrder(Spanning(epochs, start, end))
            <==> forall e, o :: e in epochs && start < e.recordedAt <= end && InEffect(epochs, start) == Some(o) ==> o.sequence < e.sequence
  {
    var opening, inside := InEffect(epochs, start), StampedWithin(epochs, start, end);
    StampedWithinInOrder(epochs, start, end);
    if opening.Some? {
      var o := opening.value;
      if InWritingOrder([o] + inside) {
        forall e | e in epochs && start < e.recordedAt <= end ensures o.sequence < e.sequence {
          assert e in inside;
          var k :| 0 <= k < |inside| && inside[k] == e;
          FirstIsOldest(o, inside, k);
        }
      }
      if forall e :: e in epochs && start < e.recordedAt <= end ==> o.sequence < e.sequence {
        assert forall k :: 0 <= k < |inside| ==> inside[k] in inside;
        PrependedInOrder(o, inside);
      }
    } else {
      assert Spanning(epochs, start, end) == inside;
    }
  }

  /** How an epoch answers for one sensor: its first entry with that id. */
  function SensorOf(sensors: seq<Sensor>, id: string): Option<Sensor> {
    if sensors == [] then None
    else if sensors[0].id == id then Some(sensors[0])
    else SensorOf(sensors[1..], id)
  }

  // ----- the journal -----

  datatype StorageError = DuplicateRow

  ghost predicate Chained(epochs: seq<Epoch>) {
    forall k :: 0 < k < |epochs| ==> epochs[k].fingerprint != epochs[k - 1].fingerprint
  }

  ghost predicate Stored(e: Epoch, position: nat) {
    e.sequence == position + 1 && e.fingerprint == multiset(e.sensors) && DistinctKeys(e.sensors)
  }

  ghost predicate History(epochs: seq<Epoch>) {
    (forall k :: 0 <= k < |epochs| ==> Stored(epochs[k], k)) && Chained(epochs)
  }

  lemma NewRowIsStored(sensors: seq<Sensor>, row: Epoch)
    requires DistinctKeys(sensors) && row.sequence > 0
    requires row.fingerprint == multiset(sensors) && row.sensors == Hydrated(sensors)
    ensures Stored(row, row.sequence - 1)
  {
    HydrationAscends(sensors);
  }

  /** Numbers are given in writing order. */
  lemma HistoryIsInWritingOrder(epochs: seq<Epoch>)
    requires History(epochs)
    ensures InWritingOrder(epochs)
  {
    forall i, j | 0 <= i < j < |epochs| ensures epochs[i].sequence < epochs[j].sequence {
      assert Stored(epochs[i], i) && Stored(epochs[j], j);
    }
  }

  lemma HistoryGrows(epochs: seq<Epoch>, e: Epoch)
    requires History(epochs) && Stored(e, |epochs|)
    requires epochs == [] || epochs[|epochs| - 1].fingerprint != e.fingerprint
    ensures History(epochs + [e])
  {
  }

  class Journal {
    var epochs: seq<Epoch>

    ghost predicate Valid()
      reads this
    {
      History(epochs)
    }

    constructor ()
      ensures Valid() && epochs == []
    {
      epochs := [];
    }

    predicate SameAsLast(sensors: seq<Sensor>)
      reads this
    {
      epochs != [] && epochs[|epochs| - 1].fingerprint == multiset(sensors)
    }

    /** Store a configuration if it differs from the last one recorded; an epoch once written is never touched. */
    method Record(sensors: seq<Sensor>, at: int, offset: int, note: string) returns (result: Result<Option<Epoch>, StorageError>)
      requires Valid()
      modifies this
      ensures Valid()
      ensures old(SameAsLast(sensors)) ==> result == Ok(None) && epochs == old(epochs)
      ensures !old(SameAsLast(sensors)) && !DistinctKeys(sensors) ==> result == Err(DuplicateRow) && epochs == old(epochs)
      ensures !old(SameAsLast(sensors)) && DistinctKeys(sensors) ==>
                && epochs == old(epochs) + [Epoch(|old(epochs)| + 1, multiset(sensors), at, offset, Hydrated(sensors), note)]
                && result == Ok(Some(Epoch(|old(epochs)| + 1, multiset(sensors), at, offset, sensors, note)))
    {
      var digest := multiset(sensors);
      if epochs != [] && epochs[|epochs| - 1].fingerprint == digest {
        return Ok(None);
      }
      if !DistinctKeys(sensors) {
        return Err(DuplicateRow);
      }
      var sequence := |epochs| + 1;
      var row := Epoch(sequence, digest, at, offset, Hydrated(sensors), note);
      NewRowIsStored(sensors, row);
      HistoryGrows(epochs, row);
      epochs := epochs + [row];
      return Ok(Some(Epoch(sequence, digest, at, offset, sensors, note)));
    }

    /** What changed inside a window, epoch by epoch. */
    method ChangesBetween(start: int, end: int) returns (result: seq<(Epoch, seq<Change>)>)
      ensures result == Report(Spanning(epochs, start, end))
      ensures var touched := Spanning(epochs, start, end);
              && |result| == Max(0, |touched| - 1)
              && forall k :: 0 <= k < |result| ==>
                   result[k].0 == touched[k + 1] && result[k].1 == Compared(touched[k].sensors, touched[k + 1].sensors)
    {
      var touched := Spanning(epochs, start, end);
      result := [];
      if touched == [] {
        return;
      }
      for k := 1 to |touched|
        invariant result == Report(touched[..k])
      {
        var changes := Compare(touched[k - 1].sensors, touched[k].sensors);
        NeighboursGrow(touched, Entry, k);
        result := result + [(touched[k], changes)];
      }
      assert touched[..|touched|] == touched;
    }
  }

  function Entry(previous: Epoch, current: Epoch): (Epoch, seq<Change>) {
    (current, Compared(previous.sensors, current.sensors))
  }

  /** `f` of every two neighbours. */
  function Neighbours<T, U>(s: seq<T>, f: (T, T) -> U): (r: seq<U>)
    ensures |r| == Max(0, |s| - 1)
    ensures forall k :: 0 <= k < |r| ==> r[k] == f(s[k], s[k + 1])
  {
    if |s| < 2 then [] else seq(|s| - 1, k requires 0 <= k < |s| - 1 => f(s[k], s[k + 1]))
  }

  lemma NeighboursGrow<T, U>(s: seq<T>, f: (T, T) -> U, k: nat)
    requires 0 < k < |s|
    ensures Neighbours(s[..k + 1], f) == Neighbours(s[..k], f) + [f(s[k - 1], s[k])]
  {
  }

  /** Each touched epoch after the first, with what it changed. */
  function Report(touched: seq<Epoch>): seq<(Epoch, seq<Change>)> {
    Neighbours(touched, Entry)
  }

  // ----- what silence promises -----

  ghost predicate Silent(report: seq<(Epoch, seq<Change>)>, id: string) {
    forall k :: 0 <= k < |report| ==> !Names(report[k].1, id)
  }

  /** All of these epochs derive the sensor alike. */
  ghost predicate Agree(touched: seq<Epoch>, id: string) {
    forall i, j :: 0 <= i < |touched| && 0 <= j < |touched| ==>
      Derivation(touched[i].sensors, id) == Derivation(touched[j].sensors, id)
  }

  /** The derivation of a sensor is the same at every moment of the window that has an epoch. */
  ghost predicate Unmoved(epochs: seq<Epoch>, start: int, end: int, id: string) {
    forall m, n :: start <= m <= end && start <= n <= end && InEffect(epochs, m).Some? && InEffect(epochs, n).Some? ==>
      Derivation(InEffect(epochs, m).value.sensors, id) == Derivation(InEffect(epochs, n).value.sensors, id)
  }

  lemma {:induction false} EntryNamesWhatMoved(touched: seq<Epoch>, id: string, k: nat)
    requires k < |Report(touched)|
    ensures Names(Report(touched)[k].1, id) <==>
            Derivation(touched[k].sensors, id) != Derivation(touched[k + 1].sensors, id)
  {
    ComparisonNamesExactlyWhatMoved(touched[k].sensors, touched[k + 1].sensors, id);
  }

  lemma {:induction false} SilentSinceTheFirst(touched: seq<Epoch>, id: string, k: nat)
    requires Silent(Report(touched), id) && k < |touched|
    ensures Derivation(touched[k].sensors, id) == Derivation(touched[0].sensors, id)
  {
    if k > 0 {
      SilentSinceTheFirst(touched, id, k - 1);
      EntryNamesWhatMoved(touched, id, k - 1);
    }
  }

  lemma SilenceMeansAgreement(touched: seq<Epoch>, id: string)
    requires Silent(Report(touched), id)
    ensures Agree(touched, id)
  {
    forall i, j | 0 <= i < |touched| && 0 <= j < |touched|
      ensures Derivation(touched[i].sensors, id) == Derivation(touched[j].sensors, id)
    {
      SilentSinceTheFirst(touched, id, i);
      SilentSinceTheFirst(touched, id, j);
    }
  }

  lemma AgreementMeansSilence(touched: seq<Epoch>, id: string)
    requires Agree(touched, id)
    ensures Silent(Report(touched), id)
  {
    forall k | 0 <= k < |Report(touched)| ensures !Names(Report(touched)[k].1, id) {
      EntryNamesWhatMoved(touched, id, k);
    }
  }

  /** A report omits a sensor exactly when every touched epoch derives it alike. */
  lemma SilentExactlyWhenAllAgree(touched: seq<Epoch>, id: string)
    ensures Silent(Report(touched), id) <==> Agree(touched, id)
  {
    if Silent(Report(touched), id) {
      SilenceMeansAgreement(touched, id);
    }
    if Agree(touched, id) {
      AgreementMeansSilence(touched, id);
    }
  }

  /** The epoch in effect at any moment of a window is among those the window touches, whatever the order of the stamps. */
  lemma {:induction false} InEffectIsTouched(epochs: seq<Epoch>, start: int, end: int, m: int)
    requires start <= m <= end && InEffect(epochs, m).Some?
    ensures InEffect(epochs, m).value in Spanning(epochs, start, end)
  {
    var e := InEffect(epochs, m).value;
    if e.recordedAt <= start {
      LatestThatEarly(epochs, start, m);
      assert Spanning(epochs, start, end)[0] == e;
    } else {
      assert e in StampedWithin(epochs, start, end);
    }
  }

  lemma {:induction false} LatestThatEarly(epochs: seq<Epoch>, start: int, m: int)
    requires start <= m && InEffect(epochs, m).Some? && InEffect(epochs, m).value.recordedAt <= start
    ensures InEffect(epochs, start) == InEffect(epochs, m)
  {
    var n := |epochs| - 1;
    if epochs[n].recordedAt > m {
      LatestThatEarly(epochs[..n], start, m);
    }
  }

  /** If the report of a window names a sensor nowhere, the sensor's derivation is the same at every moment of it. */
  lemma SilenceMeansUnmoved(epochs: seq<Epoch>, start: int, end: int, id: string)
    requires Silent(Report(Spanning(epochs, start, end)), id)
    ensures Unmoved(epochs, start, end, id)
  {
    var touched := Spanning(epochs, start, end);
    SilentExactlyWhenAllAgree(touched, id);
    forall m, n | start <= m <= end && start <= n <= end && InEffect(epochs, m).Some? && InEffect(epochs, n).Some?
      ensures Derivation(InEffect(epochs, m).value.sensors, id) == Derivation(InEffect(epochs, n).value.sensors, id)
    {
      InEffectIsTouched(epochs, start, end, m);
      InEffectIsTouched(epochs, start, end, n);
    }
  }

  /** Stamps in the order of writing, no two equal: a clock that never steps back. */
  ghost predicate StampsRise(epochs: seq<Epoch>) {
    forall i, j :: 0 <= i < j < |epochs| ==> epochs[i].recordedAt < epochs[j].recordedAt
  }

  lemma {:induction false} EveryEpochHasItsMoment(epochs: seq<Epoch>, e: Epoch)
    requires StampsRise(epochs) && e in epochs
    ensures InEffect(epochs, e.recordedAt) == Some(e)
  {
    var n := |epochs| - 1;
    if epochs[n] != e {
      var k :| 0 <= k < |epochs| && epochs[k] == e;
      assert epochs[k].recordedAt < epochs[n].recordedAt;
      assert epochs[..n][k] == e;
      EveryEpochHasItsMoment(epochs[..n], e);
    }
  }

  /** With rising stamps the report misses nothing and invents nothing. */
  lemma SilenceIsExactWhenStampsRise(epochs: seq<Epoch>, start: int, end: int, id: string)
    requires StampsRise(epochs)
    ensures Silent(Report(Spanning(epochs, start, end)), id) <==> Unmoved(epochs, start, end, id)
  {
    if Silent(Report(Spanning(epochs, start, end)), id) {
      SilenceMeansUnmoved(epochs, start, end, id);
    }
    var touched := Spanning(epochs, start, end);
    if start > end {
      var inside := StampedWithin(epochs, start, end);
      assert inside != [] ==> inside[0] in inside;
    } else if Unmoved(epochs, start, end, id) {
      forall k | 0 <= k < |touched| ensures exists m :: start <= m <= end && InEffect(epochs, m) == Some(touched[k]) {
        TouchedIsInEffect(epochs, start, end, k);
      }
      SilentExactlyWhenAllAgree(touched, id);
    }
  }

  lemma {:induction false} TouchedIsInEffect(epochs: seq<Epoch>, start: int, end: int, k: nat)
    requires StampsRise(epochs) && start <= end && k < |Spanning(epochs, start, end)|
    ensures exists m :: start <= m <= end && InEffect(epochs, m) == Some(Spanning(epochs, start, end)[k])
  {
    var e := Spanning(epochs, start, end)[k];
    var inside := StampedWithin(epochs, start, end);
    if InEffect(epochs, start) == Some(e) {
    } else {
      assert e in inside;
      EveryEpochHasItsMoment(epochs, e);
    }
  }
}
