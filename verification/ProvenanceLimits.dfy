/** What the promise of the configuration journal depends on: one entry a sensor, and stamps that rise. */
module ProvenanceLimits {
  import opened Basics
  import opened Provenance
  import opened ProvenanceJournal

  // ----- one entry a sensor -----

  ghost predicate ListedOnce(sensors: seq<Sensor>, id: string) {
    forall i, j :: 0 <= i < j < |sensors| ==> sensors[i].id != id || sensors[j].id != id
  }

  lemma {:induction false} FirstEntryIsLast(sensors: seq<Sensor>, id: string)
    requires ListedOnce(sensors, id)
    ensures SensorOf(sensors, id) == Derivation(sensors, id)
  {
    if sensors != [] {
      var rest := sensors[1..];
      assert forall i, j :: 0 <= i < j < |rest| ==> rest[i] == sensors[i + 1] && rest[j] == sensors[j + 1];
      FirstEntryIsLast(rest, id);
      assert forall k :: 0 < k < |sensors| && sensors[0].id == id ==> sensors[k].id != id;
      DerivationFromRest(sensors, id);
    }
  }

  lemma {:induction false} DerivationFromRest(sensors: seq<Sensor>, id: string)
    requires sensors != []
    ensures Derivation(sensors, id) ==
            if Derivation(sensors[1..], id).Some? then Derivation(sensors[1..], id)
            else if sensors[0].id == id then Some(sensors[0]) else None
  {
    var n := |sensors| - 1;
    if n > 0 {
      DerivationFromRest(sensors[..n], id);
      assert sensors[..n][1..] == sensors[1..][..n - 1];
      assert sensors[1..][n - 1] == sensors[n];
    }
  }

  /** What a report says nothing about, an epoch's own answer for the sensor does not change either, once each lists it once. */
  lemma {:induction false} SilenceCoversTheSensorItself(epochs: seq<Epoch>, start: int, end: int, id: string, m: int, n: int)
    requires Silent(Report(Spanning(epochs, start, end)), id)
    requires forall e :: e in Spanning(epochs, start, end) ==> ListedOnce(e.sensors, id)
    requires start <= m <= end && start <= n <= end && InEffect(epochs, m).Some? && InEffect(epochs, n).Some?
    ensures SensorOf(InEffect(epochs, m).value.sensors, id) == SensorOf(InEffect(epochs, n).value.sensors, id)
  {
    SilenceMeansUnmoved(epochs, start, end, id);
    InEffectIsTouched(epochs, start, end, m);
    InEffectIsTouched(epochs, start, end, n);
    FirstEntryIsLast(InEffect(epochs, m).value.sensors, id);
    FirstEntryIsLast(InEffect(epochs, n).value.sensors, id);
  }

  lemma {:induction false} LastEntryAnswers(sensors: seq<Sensor>, id: string, l: int)
    requires 0 <= l < |sensors| && sensors[l].id == id
    requires forall k :: l < k < |sensors| ==> sensors[k].id != id
    ensures Derivation(sensors, id) == Some(sensors[l])
  {
    var n := |sensors| - 1;
    if l < n {
      LastEntryAnswers(sensors[..n], id, l);
    }
  }

  lemma {:induction false} FirstEntryAnswers(sensors: seq<Sensor>, id: string, f: int)
    requires 0 <= f < |sensors| && sensors[f].id == id
    requires forall k :: 0 <= k < f ==> sensors[k].id != id
    ensures SensorOf(sensors, id) == Some(sensors[f])
  {
    if f > 0 {
      FirstEntryAnswers(sensors[1..], id, f - 1);
    }
  }

  lemma {:induction false} LastEntry(sensors: seq<Sensor>, id: string, from: int) returns (l: int)
    requires 0 <= from < |sensors| && sensors[from].id == id
    ensures from <= l < |sensors| && sensors[l].id == id && forall k :: l < k < |sensors| ==> sensors[k].id != id
  {
    l := |sensors| - 1;
    while sensors[l].id != id
      invariant from <= l < |sensors| && forall k :: l < k < |sensors| ==> sensors[k].id != id
      decreases l
    {
      l := l - 1;
    }
  }

  lemma {:induction false} FirstEntry(sensors: seq<Sensor>, id: string, upto: int) returns (f: int)
    requires 0 <= upto < |sensors| && sensors[upto].id == id
    ensures 0 <= f <= upto && sensors[f].id == id && forall k :: 0 <= k < f ==> sensors[k].id != id
  {
    f := 0;
    while sensors[f].id != id
      invariant 0 <= f <= upto && forall k :: 0 <= k < f ==> sensors[k].id != id
      decreases upto - f
    {
      f := f + 1;
    }
  }

  /** A configuration answers for a sensor as the comparison reads it if and only if it lists the sensor at most once. */
  lemma {:induction false} AnswersAgreeExactlyWhenListedOnce(sensors: seq<Sensor>, id: string)
    requires DistinctKeys(sensors)
    ensures ListedOnce(sensors, id) <==> SensorOf(sensors, id) == Derivation(sensors, id)
  {
    if ListedOnce(sensors, id) {
      FirstEntryIsLast(sensors, id);
    } else {
      var i, j :| 0 <= i < j < |sensors| && sensors[i].id == id && sensors[j].id == id;
      var f := FirstEntry(sensors, id, i);
      var l := LastEntry(sensors, id, j);
      FirstEntryAnswers(sensors, id, f);
      LastEntryAnswers(sensors, id, l);
    }
  }

  /** A comparison silent about the sensor leaves its answer alone, when the later configuration lists it at most once. */
  ghost predicate SilenceKeeps(before: seq<Sensor>, after: seq<Sensor>, id: string) {
    DistinctKeys(after) && ListedOnce(after, id) && !Names(Compared(before, after), id) ==>
      SensorOf(before, id) == SensorOf(after, id)
  }

  /** Silence about a sensor can be trusted for every later configuration if and only if the earlier lists it at most once. */
  lemma SilenceKeepsExactlyWhenListedOnce(before: seq<Sensor>, id: string)
    requires DistinctKeys(before)
    ensures ListedOnce(before, id) <==> forall after :: SilenceKeeps(before, after, id)
  {
    AnswersAgreeExactlyWhenListedOnce(before, id);
    if ListedOnce(before, id) {
      forall after ensures SilenceKeeps(before, after, id) {
        ComparisonNamesExactlyWhatMoved(before, after, id);
        if ListedOnce(after, id) {
          FirstEntryIsLast(after, id);
        }
      }
    } else {
      var i, j :| 0 <= i < j < |before| && before[i].id == id && before[j].id == id;
      ListedHasDerivation(before, before[i]);
      var after := [Derivation(before, id).value];
      LastEntryAnswers(after, id, 0);
      FirstEntryAnswers(after, id, 0);
      ComparisonNamesExactlyWhatMoved(before, after, id);
      assert !SilenceKeeps(before, after, id);
    }
  }

  lemma {:induction false} OtherIdsUntouched(sensors: seq<Sensor>, f: int, now: Sensor, id: string)
    requires 0 <= f < |sensors| && now.id == sensors[f].id && id != now.id
    ensures Derivation(sensors[f := now], id) == Derivation(sensors, id)
  {
    var n := |sensors| - 1;
    if f < n {
      assert sensors[f := now][..n] == sensors[..n][f := now];
      OtherIdsUntouched(sensors[..n], f, now, id);
    } else {
      assert sensors[f := now][..n] == sensors[..n];
    }
  }

  /** One id listed twice, under two kinds: whatever its first entry becomes, the comparison is empty, and the answer moves. */
  lemma TwoKindsHideAChange(sensors: seq<Sensor>, f: int, later: int, now: Sensor)
    requires 0 <= f < later < |sensors| && sensors[later].id == sensors[f].id == now.id
    requires (forall k :: 0 <= k < f ==> sensors[k].id != now.id) && now != sensors[f]
    ensures Compared(sensors, sensors[f := now]) == []
    ensures SensorOf(sensors, now.id) != SensorOf(sensors[f := now], now.id)
  {
    var moved := sensors[f := now];
    var l := LastEntry(sensors, now.id, later);
    LastEntryAnswers(sensors, now.id, l);
    LastEntryAnswers(moved, now.id, l);
    FirstEntryAnswers(sensors, now.id, f);
    FirstEntryAnswers(moved, now.id, f);
    forall id ensures !Names(Compared(sensors, moved), id) {
      ComparisonNamesExactlyWhatMoved(sensors, moved, id);
      if id != now.id {
        OtherIdsUntouched(sensors, f, now, id);
      }
    }
    NamesNothing(Compared(sensors, moved));
  }

  lemma NamesNothing(changes: seq<Change>)
    requires forall id :: !Names(changes, id)
    ensures changes == []
  {
    assert changes != [] ==> changes[0] in changes && Names(changes, changes[0].id);
  }

  // ----- why stamps must rise -----

  ghost predicate Carries(epochs: seq<Epoch>, stamps: seq<int>) {
    |epochs| == |stamps| && forall k :: 0 <= k < |epochs| ==> epochs[k].recordedAt == stamps[k]
  }

  ghost predicate ReportIsExact(epochs: seq<Epoch>, start: int, end: int, id: string) {
    Silent(Report(Spanning(epochs, start, end)), id) <==> Unmoved(epochs, start, end, id)
  }

  /** An epoch followed by one stamped no later is in effect at no moment. */
  lemma {:induction false} ShadowedIsNeverInEffect(epochs: seq<Epoch>, i: int, j: int, m: int)
    requires 0 <= i < j < |epochs| && epochs[i].recordedAt >= epochs[j].recordedAt
    ensures InEffect(epochs, m).Some? ==> exists k :: 0 <= k < |epochs| && k != i && epochs[k] == InEffect(epochs, m).value
  {
    var n := |epochs| - 1;
    if epochs[n].recordedAt > m {
      var init := epochs[..n];
      if j < n {
        ShadowedIsNeverInEffect(init, i, j, m);
        if InEffect(init, m).Some? {
          var k :| 0 <= k < |init| && k != i && init[k] == InEffect(init, m).value;
          assert epochs[k] == init[k];
        }
      } else if InEffect(init, m).Some? {
        var k :| 0 <= k < |init| && init[k] == InEffect(init, m).value;
        assert epochs[k] == init[k];
      }
    }
  }

  /** A history with these stamps in which epoch `i` alone derives the sensor differently; a tag keeps every two epochs apart. */
  function Odd(stamps: seq<int>, i: int, id: string, k: int): Epoch
    requires 0 <= k < |stamps|
  {
    var sensors := [Sensor(id + "-tag", Bit, "", "state", k as real, 0.0, false), Sensor(id, Bit, "", "state", 1.0, 0.0, k == i)];
    Epoch(k + 1, multiset(sensors), stamps[k], 0, sensors, "")
  }

  function OddHistory(stamps: seq<int>, i: int, id: string): (epochs: seq<Epoch>)
    ensures |epochs| == |stamps|
    ensures forall k :: 0 <= k < |epochs| ==> epochs[k] == Odd(stamps, i, id, k)
  {
    seq(|stamps|, k requires 0 <= k < |stamps| => Odd(stamps, i, id, k))
  }

  lemma {:induction false} OddIsStored(stamps: seq<int>, i: int, id: string, k: int)
    requires 0 <= k < |stamps|
    ensures Stored(Odd(stamps, i, id, k), k)
    ensures Derivation(Odd(stamps, i, id, k).sensors, id) == Some(Sensor(id, Bit, "", "state", 1.0, 0.0, k == i))
  {
    assert |id + "-tag"| != |id|;
  }

  lemma OddNeighboursDiffer(stamps: seq<int>, i: int, id: string, k: int)
    requires 0 < k < |stamps|
    ensures Odd(stamps, i, id, k).fingerprint != Odd(stamps, i, id, k - 1).fingerprint
  {
    var now, was := Odd(stamps, i, id, k), Odd(stamps, i, id, k - 1);
    var tag := now.sensors[0];
    assert tag in now.fingerprint;
    assert |tag.id| != |id| && tag.scale == k as real;
    assert tag != was.sensors[0] && tag != was.sensors[1];
    assert tag !in was.sensors;
    assert tag !in was.fingerprint;
  }

  /** Stamps out of order, however few: some history with them reports an epoch that no moment ever sees. */
  lemma ShadowedEpochIsStillReported(stamps: seq<int>, i: int, j: int, id: string)
    requires 0 <= i < j < |stamps| && stamps[i] >= stamps[j]
    ensures var epochs := OddHistory(stamps, i, id);
            History(epochs) && Carries(epochs, stamps) && !ReportIsExact(epochs, stamps[j] - 1, stamps[i], id)
  {
    var epochs := OddHistory(stamps, i, id);
    var start, end := stamps[j] - 1, stamps[i];
    forall k | 0 <= k < |epochs| ensures Stored(epochs[k], k) {
      OddIsStored(stamps, i, id, k);
    }
    forall k | 0 < k < |epochs| ensures epochs[k].fingerprint != epochs[k - 1].fingerprint {
      OddNeighboursDiffer(stamps, i, id, k);
    }
    OddIsUnmoved(stamps, i, j, id, start, end);
    OddIsNotSilent(stamps, i, j, id, start, end);
  }

  lemma OddIsUnmoved(stamps: seq<int>, i: int, j: int, id: string, start: int, end: int)
    requires 0 <= i < j < |stamps| && stamps[i] >= stamps[j]
    ensures Unmoved(OddHistory(stamps, i, id), start, end, id)
  {
    var epochs := OddHistory(stamps, i, id);
    forall m | InEffect(epochs, m).Some?
      ensures Derivation(InEffect(epochs, m).value.sensors, id) == Some(Sensor(id, Bit, "", "state", 1.0, 0.0, false))
    {
      ShadowedIsNeverInEffect(epochs, i, j, m);
      var k :| 0 <= k < |epochs| && k != i && epochs[k] == InEffect(epochs, m).value;
      OddIsStored(stamps, i, id, k);
    }
  }

  lemma {:induction false} TwoTouchedDiffer(epochs: seq<Epoch>, start: int, end: int, i: int, j: int, id: string)
    requires 0 <= i < |epochs| && 0 <= j < |epochs|
    requires start < epochs[i].recordedAt <= end && start < epochs[j].recordedAt <= end
    requires Derivation(epochs[i].sensors, id) != Derivation(epochs[j].sensors, id)
    ensures !Silent(Report(Spanning(epochs, start, end)), id)
  {
    var touched, inside := Spanning(epochs, start, end), StampedWithin(epochs, start, end);
    assert epochs[i] in inside && epochs[j] in inside;
    assert epochs[i] in touched && epochs[j] in touched;
    var a :| 0 <= a < |touched| && touched[a] == epochs[i];
    var b :| 0 <= b < |touched| && touched[b] == epochs[j];
    SilentExactlyWhenAllAgree(touched, id);
  }

  lemma OddIsNotSilent(stamps: seq<int>, i: int, j: int, id: string, start: int, end: int)
    requires 0 <= i < j < |stamps| && start < stamps[j] <= stamps[i] <= end
    ensures !Silent(Report(Spanning(OddHistory(stamps, i, id), start, end)), id)
  {
    OddIsStored(stamps, i, id, i);
    OddIsStored(stamps, i, id, j);
    TwoTouchedDiffer(OddHistory(stamps, i, id), start, end, i, j, id);
  }

  /** The report says of every window and every sensor exactly whether it moved, in every history with these stamps,
      if and only if the stamps rise: a clock that never stands still or steps back between two recordings. */
  lemma ReportsAreExactExactlyWhenStampsRise(stamps: seq<int>)
    ensures Rising(stamps)
            <==> forall epochs, start, end, id :: History(epochs) && Carries(epochs, stamps) ==>
                   ReportIsExact(epochs, start, end, id)
  {
    if Rising(stamps) {
      forall epochs, start, end, id | History(epochs) && Carries(epochs, stamps)
        ensures ReportIsExact(epochs, start, end, id)
      {
        SilenceIsExactWhenStampsRise(epochs, start, end, id);
      }
    } else {
      var i, j :| 0 <= i < j < |stamps| && stamps[i] >= stamps[j];
      ShadowedEpochIsStillReported(stamps, i, j, "supply");
    }
  }
}
