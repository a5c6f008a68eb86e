/** What each sensor's values were derived from, and when that changed: an append-only history of epochs. */
module Provenance {
  import opened Basics
  import opened TextOrder

  datatype Kind = Bit | OneWire | Register

  /** The order of the kinds' names: "bit", "onewire", "register". */
  function Rank(kind: Kind): nat {
    match kind
    case Bit => 0
    case OneWire => 1
    case Register => 2
  }

  function KindName(kind: Kind): string {
    match kind
    case Bit => "bit"
    case OneWire => "onewire"
    case Register => "register"
  }

  lemma RankIsNameOrder(a: Kind, b: Kind)
    ensures Rank(a) < Rank(b) <==> Below(KindName(a), KindName(b))
  {
    BelowIsStrict(KindName(a), KindName(b));
  }

  datatype Sensor = Sensor(id: string, kind: Kind, reference: string, unit: string, scale: real, offset: real, inverted: bool)

  // ----- comparing two configurations -----

  datatype Field = Source | KindField | Reference | Unit | Scale | Offset | Inverted

  datatype Value = OfSource(sensor: Sensor) | OfKind(kind: Kind) | OfText(text: string) | OfNumber(number: real) | OfFlag(flag: bool)

  datatype Change = Change(id: string, field: Field, before: Option<Value>, after: Option<Value>)

  const COMPARED := [KindField, Reference, Unit, Scale, Offset, Inverted]

  function ValueOf(s: Sensor, field: Field): Value {
    match field
    case Source => OfSource(s)
    case KindField => OfKind(s.kind)
    case Reference => OfText(s.reference)
    case Unit => OfText(s.unit)
    case Scale => OfNumber(s.scale)
    case Offset => OfNumber(s.offset)
    case Inverted => OfFlag(s.inverted)
  }

  /** How a dictionary keyed by sensor id reads a list of entries: the last one wins. */
  function Derivation(sensors: seq<Sensor>, id: string): (found: Option<Sensor>)
    ensures found.Some? ==> found.value.id == id && found.value in sensors
  {
    if sensors == [] then None
    else
      var last := sensors[|sensors| - 1];
      if last.id == id then Some(last) else Derivation(sensors[..|sensors| - 1], id)
  }

  /** What one field contributes to a comparison. */
  function Difference(id: string, was: Sensor, now: Sensor, field: Field): (changes: seq<Change>)
    ensures forall c :: c in changes ==> c.id == id
    ensures changes == [] <==> ValueOf(was, field) == ValueOf(now, field)
  {
    if ValueOf(was, field) != ValueOf(now, field)
    then [Change(id, field, Some(ValueOf(was, field)), Some(ValueOf(now, field)))] else []
  }

  /** The first `upto` compared fields in which two entries of one sensor differ. */
  function FieldChanges(id: string, was: Sensor, now: Sensor, upto: nat): (changes: seq<Change>)
    requires upto <= |COMPARED|
    ensures forall c :: c in changes ==> c.id == id
  {
    if upto == 0 then [] else FieldChanges(id, was, now, upto - 1) + Difference(id, was, now, COMPARED[upto - 1])
  }

  function ChangesOf(id: string, was: Option<Sensor>, now: Option<Sensor>): (changes: seq<Change>)
    ensures forall c :: c in changes ==> c.id == id
  {
    match (was, now)
    case (None, None) => []
    case (None, Some(n)) => [Change(id, Source, None, Some(OfSource(n)))]
    case (Some(w), None) => [Change(id, Source, Some(OfSource(w)), None)]
    case (Some(w), Some(n)) => FieldChanges(id, w, n, |COMPARED|)
  }

  ghost predicate Names(changes: seq<Change>, id: string) {
    exists c :: c in changes && c.id == id
  }

  lemma {:induction false} FieldChangesFind(id: string, was: Sensor, now: Sensor, upto: nat, at: nat)
    requires at < upto <= |COMPARED| && ValueOf(was, COMPARED[at]) != ValueOf(now, COMPARED[at])
    ensures FieldChanges(id, was, now, upto) != []
  {
    if at < upto - 1 {
      FieldChangesFind(id, was, now, upto - 1, at);
    }
  }

  lemma {:induction false} EqualEntriesDoNotDiffer(id: string, s: Sensor, upto: nat)
    requires upto <= |COMPARED|
    ensures FieldChanges(id, s, s, upto) == []
  {
    if upto > 0 {
      EqualEntriesDoNotDiffer(id, s, upto - 1);
    }
  }

  /** The compared fields are everything that distinguishes two entries of one sensor. */
  lemma ChangesFoundExactlyWhenDifferent(id: string, was: Option<Sensor>, now: Option<Sensor>)
    requires (was.Some? ==> was.value.id == id) && (now.Some? ==> now.value.id == id)
    ensures ChangesOf(id, was, now) == [] <==> was == now
  {
    if was.Some? && now.Some? {
      var w, n := was.value, now.value;
      if w == n {
        EqualEntriesDoNotDiffer(id, w, |COMPARED|);
      } else {
        var at := if w.kind != n.kind then 0 else if w.reference != n.reference then 1 else if w.unit != n.unit then 2
                  else if w.scale != n.scale then 3 else if w.offset != n.offset then 4 else 5;
        FieldChangesFind(id, w, n, |COMPARED|, at);
      }
    }
  }

  function IdsOf(sensors: seq<Sensor>): set<string> {
    set s | s in sensors :: s.id
  }

  /** The changes of the listed sensors, one sensor after another. */
  function Collected(ids: seq<string>, before: seq<Sensor>, after: seq<Sensor>): seq<Change> {
    if ids == [] then []
    else
      var last := ids[|ids| - 1];
      Collected(ids[..|ids| - 1], before, after) + ChangesOf(last, Derivation(before, last), Derivation(after, last))
  }

  function Compared(before: seq<Sensor>, after: seq<Sensor>): seq<Change> {
    Collected(SortedIds(IdsOf(before) + IdsOf(after)), before, after)
  }

  lemma {:induction false} CollectedNames(ids: seq<string>, before: seq<Sensor>, after: seq<Sensor>, id: string)
    ensures Names(Collected(ids, before, after), id) <==> id in ids && Derivation(before, id) != Derivation(after, id)
  {
    if ids != [] {
      var n := |ids| - 1;
      var init, last := ids[..n], ids[n];
      var earlier, own := Collected(init, before, after), ChangesOf(last, Derivation(before, last), Derivation(after, last));
      CollectedNames(init, before, after, id);
      ChangesFoundExactlyWhenDifferent(last, Derivation(before, last), Derivation(after, last));
      assert id in ids <==> id in init || id == last;
      assert Names(earlier + own, id) <==> Names(earlier, id) || Names(own, id) by {
        if Names(earlier, id) { var c :| c in earlier && c.id == id; assert c in earlier + own; }
        if Names(own, id) { var c :| c in own && c.id == id; assert c in earlier + own; }
      }
      if own != [] {
        assert own[0] in own;
      }
    }
  }

  lemma {:induction false} UnlistedHasNoDerivation(sensors: seq<Sensor>, id: string)
    requires id !in IdsOf(sensors)
    ensures Derivation(sensors, id) == None
  {
    if sensors != [] {
      var n := |sensors| - 1;
      assert sensors[n] in sensors;
      forall x | x in IdsOf(sensors[..n]) ensures x in IdsOf(sensors) {
        var s :| s in sensors[..n] && s.id == x;
        assert s in sensors;
      }
      UnlistedHasNoDerivation(sensors[..n], id);
    }
  }

  /** A comparison names a sensor exactly when its derivation differs between the two configurations. */
  lemma {:induction false} ComparisonNamesExactlyWhatMoved(before: seq<Sensor>, after: seq<Sensor>, id: string)
    ensures Names(Compared(before, after), id) <==> Derivation(before, id) != Derivation(after, id)
  {
    var ids := SortedIds(IdsOf(before) + IdsOf(after));
    CollectedNames(ids, before, after, id);
    if id !in ids {
      UnlistedHasNoDerivation(before, id);
      UnlistedHasNoDerivation(after, id);
    }
  }

  // ----- the exact content of a comparison -----

  /** Where the fields stand in a comparison. */
  function FieldOrder(field: Field): nat {
    match field
    case Source => 0
    case KindField => 1
    case Reference => 2
    case Unit => 3
    case Scale => 4
    case Offset => 5
    case Inverted => 6
  }

  /** A field that differs between two entries, with the old value before and the new one after. */
  ghost predicate FieldMoved(was: Sensor, now: Sensor, field: Field, before: Option<Value>, after: Option<Value>) {
    match field
    case Source => false
    case KindField => was.kind != now.kind && before == Some(OfKind(was.kind)) && after == Some(OfKind(now.kind))
    case Reference => was.reference != now.reference && before == Some(OfText(was.reference)) && after == Some(OfText(now.reference))
    case Unit => was.unit != now.unit && before == Some(OfText(was.unit)) && after == Some(OfText(now.unit))
    case Scale => was.scale != now.scale && before == Some(OfNumber(was.scale)) && after == Some(OfNumber(now.scale))
    case Offset => was.offset != now.offset && before == Some(OfNumber(was.offset)) && after == Some(OfNumber(now.offset))
    case Inverted => was.inverted != now.inverted && before == Some(OfFlag(was.inverted)) && after == Some(OfFlag(now.inverted))
  }

  /** What a comparison says of one sensor: an addition, a removal, or a field that moved. */
  ghost predicate Moved(was: Option<Sensor>, now: Option<Sensor>, c: Change) {
    if was.None? && now.Some? then c.field == Source && c.before == None && c.after == Some(OfSource(now.value))
    else if was.Some? && now.None? then c.field == Source && c.before == Some(OfSource(was.value)) && c.after == None
    else was.Some? && now.Some? && FieldMoved(was.value, now.value, c.field, c.before, c.after)
  }

  lemma DifferenceMembers(id: string, was: Sensor, now: Sensor, field: Field, c: Change)
    requires field != Source
    ensures c in Difference(id, was, now, field)
            <==> c.id == id && c.field == field && FieldMoved(was, now, field, c.before, c.after)
  {
  }

  lemma {:induction false} FieldChangesMembers(id: string, was: Sensor, now: Sensor, upto: nat, c: Change)
    requires upto <= |COMPARED|
    ensures c in FieldChanges(id, was, now, upto)
            <==> c.id == id && FieldOrder(c.field) <= upto && FieldMoved(was, now, c.field, c.before, c.after)
  {
    if upto > 0 {
      var field := COMPARED[upto - 1];
      FieldChangesMembers(id, was, now, upto - 1, c);
      DifferenceMembers(id, was, now, field, c);
      assert FieldOrder(field) == upto;
      assert FieldOrder(c.field) == upto <==> c.field == field;
    }
  }

  lemma ChangesOfMembers(id: string, was: Option<Sensor>, now: Option<Sensor>, c: Change)
    ensures c in ChangesOf(id, was, now) <==> c.id == id && Moved(was, now, c)
  {
    if was.Some? && now.Some? {
      FieldChangesMembers(id, was.value, now.value, |COMPARED|, c);
      assert FieldOrder(c.field) <= |COMPARED|;
    }
  }

  lemma {:induction false} CollectedMembers(ids: seq<string>, before: seq<Sensor>, after: seq<Sensor>, c: Change)
    ensures c in Collected(ids, before, after)
            <==> c.id in ids && Moved(Derivation(before, c.id), Derivation(after, c.id), c)
  {
    if ids != [] {
      var n := |ids| - 1;
      CollectedMembers(ids[..n], before, after, c);
      ChangesOfMembers(ids[n], Derivation(before, ids[n]), Derivation(after, ids[n]), c);
      assert c.id in ids <==> c.id in ids[..n] || c.id == ids[n];
    }
  }

  /** A comparison lists a change if and only if that is what happened to the sensor, the old configuration's value before
      and the new one's after. */
  lemma {:induction false} ComparisonListsExactlyWhatMoved(before: seq<Sensor>, after: seq<Sensor>, c: Change)
    ensures c in Compared(before, after) <==> Moved(Derivation(before, c.id), Derivation(after, c.id), c)
  {
    CollectedMembers(SortedIds(IdsOf(before) + IdsOf(after)), before, after, c);
    if c.id !in SortedIds(IdsOf(before) + IdsOf(after)) {
      UnlistedHasNoDerivation(before, c.id);
      UnlistedHasNoDerivation(after, c.id);
    }
  }

  /** Sensor by sensor in the order of their ids, and field by field in the fixed order. */
  ghost predicate InReportOrder(changes: seq<Change>) {
    forall i, j :: 0 <= i < j < |changes| ==> Precedes(changes[i], changes[j])
  }

  ghost predicate Precedes(a: Change, b: Change) {
    Below(a.id, b.id) || (a.id == b.id && FieldOrder(a.field) < FieldOrder(b.field))
  }

  lemma {:induction false} FieldChangesInOrder(id: string, was: Sensor, now: Sensor, upto: nat)
    requires upto <= |COMPARED|
    ensures InReportOrder(FieldChanges(id, was, now, upto))
  {
    if upto > 0 {
      var earlier, own := FieldChanges(id, was, now, upto - 1), Difference(id, was, now, COMPARED[upto - 1]);
      FieldChangesInOrder(id, was, now, upto - 1);
      forall i | 0 <= i < |earlier| ensures earlier[i].id == id && FieldOrder(earlier[i].field) <= upto - 1 {
        FieldChangesMembers(id, was, now, upto - 1, earlier[i]);
        assert earlier[i] in earlier;
      }
      assert forall c :: c in own ==> c.field == COMPARED[upto - 1];
      assert FieldOrder(COMPARED[upto - 1]) == upto;
    }
  }

  lemma {:induction false} CollectedInOrder(ids: seq<string>, before: seq<Sensor>, after: seq<Sensor>)
    requires InIdOrder(ids)
    ensures InReportOrder(Collected(ids, before, after))
  {
    if ids != [] {
      var n := |ids| - 1;
      var earlier := Collected(ids[..n], before, after);
      var was, now := Derivation(before, ids[n]), Derivation(after, ids[n]);
      CollectedInOrder(ids[..n], before, after);
      forall i | 0 <= i < |earlier| ensures Below(earlier[i].id, ids[n]) {
        assert earlier[i] in earlier;
        CollectedMembers(ids[..n], before, after, earlier[i]);
        var k :| 0 <= k < n && ids[..n][k] == earlier[i].id;
        assert ids[k] == earlier[i].id;
      }
      if was.Some? && now.Some? {
        FieldChangesInOrder(ids[n], was.value, now.value, |COMPARED|);
      }
      AppendedInOrder(earlier, ChangesOf(ids[n], was, now), ids[n]);
    }
  }

  lemma AppendedInOrder(earlier: seq<Change>, own: seq<Change>, id: string)
    requires InReportOrder(earlier) && InReportOrder(own)
    requires forall i :: 0 <= i < |earlier| ==> Below(earlier[i].id, id)
    requires forall c :: c in own ==> c.id == id
    ensures InReportOrder(earlier + own)
  {
    forall i, j | 0 <= i < |earlier| && 0 <= j < |own| ensures Precedes(earlier[i], own[j]) {
      assert own[j] in own;
    }
  }

  lemma ComparisonIsInOrder(before: seq<Sensor>, after: seq<Sensor>)
    ensures InReportOrder(Compared(before, after))
  {
    CollectedInOrder(SortedIds(IdsOf(before) + IdsOf(after)), before, after);
  }

  method CompareFields(id: string, was: Sensor, now: Sensor) returns (changes: seq<Change>)
    ensures changes == FieldChanges(id, was, now, |COMPARED|)
  {
    changes := [];
    for f := 0 to |COMPARED|
      invariant changes == FieldChanges(id, was, now, f)
    {
      var before, after := ValueOf(was, COMPARED[f]), ValueOf(now, COMPARED[f]);
      if before != after {
        changes := changes + [Change(id, COMPARED[f], Some(before), Some(after))];
      }
    }
  }

  method CompareOne(id: string, was: Option<Sensor>, now: Option<Sensor>) returns (own: seq<Change>)
    requires was.Some? || now.Some?
    ensures own == ChangesOf(id, was, now)
  {
    if was.None? {
      own := [Change(id, Source, None, Some(OfSource(now.value)))];
    } else if now.None? {
      own := [Change(id, Source, Some(OfSource(was.value)), None)];
    } else {
      own := CompareFields(id, was.value, now.value);
    }
  }

  /** Every field that differs between two configurations, sensor by sensor. */
  method Compare(before: seq<Sensor>, after: seq<Sensor>) returns (changes: seq<Change>)
    ensures changes == Compared(before, after)
  {
    var earlier := ByIdentifier(before);
    var later := ByIdentifier(after);
    var ids := SortedIds(IdsOf(before) + IdsOf(after));
    changes := [];
    for i := 0 to |ids|
      invariant changes == Collected(ids[..i], before, after)
    {
      var id := ids[i];
      assert id in ids;
      DictionaryReads(before, earlier, id);
      DictionaryReads(after, later, id);
      var own := CompareOne(id, Get(earlier, id), Get(later, id));
      CollectedGrows(ids, i, before, after);
      changes := changes + own;
    }
    assert ids[..|ids|] == ids;
  }

  lemma {:induction false} CollectedGrows(ids: seq<string>, i: nat, before: seq<Sensor>, after: seq<Sensor>)
    requires i < |ids|
    ensures Collected(ids[..i + 1], before, after)
         == Collected(ids[..i], before, after) + ChangesOf(ids[i], Derivation(before, ids[i]), Derivation(after, ids[i]))
  {
    assert ids[..i + 1][..i] == ids[..i];
  }

  ghost predicate Dictionary(sensors: seq<Sensor>, entries: map<string, Sensor>) {
    forall id :: Derivation(sensors, id) == Get(entries, id)
  }

  lemma {:induction false} DictionaryReads(sensors: seq<Sensor>, entries: map<string, Sensor>, id: string)
    requires Dictionary(sensors, entries)
    ensures Derivation(sensors, id) == Get(entries, id)
    ensures id in IdsOf(sensors) ==> id in entries
  {
    if id in IdsOf(sensors) {
      var s :| s in sensors && s.id == id;
      ListedHasDerivation(sensors, s);
    }
  }

  lemma {:induction false} ListedHasDerivation(sensors: seq<Sensor>, s: Sensor)
    requires s in sensors
    ensures Derivation(sensors, s.id).Some?
  {
    var n := |sensors| - 1;
    if sensors[n].id != s.id {
      ListedHasDerivation(sensors[..n], s);
    }
  }

  method ByIdentifier(sensors: seq<Sensor>) returns (entries: map<string, Sensor>)
    ensures Dictionary(sensors, entries)
  {
    entries := map[];
    for i := 0 to |sensors|
      invariant Dictionary(sensors[..i], entries)
    {
      assert sensors[..i + 1][..i] == sensors[..i];
      entries := entries[sensors[i].id := sensors[i]];
    }
    assert sensors[..|sensors|] == sensors;
  }
}
