/** Aggregating readings into fixed intervals: once in Python over rows already selected, once in SQL. */
module Buckets {
  import opened Basics
  import opened Division
  import opened Statistics

  const DAY_MICROSECONDS := 86_400_000_000

  datatype BucketError = IntervalNotPositive | IntervalDrifts | PreEpoch

  /** An interval's start as an instant and the UTC offset it is rendered in, and the statistics inside it. */
  datatype Bucket = Bucket(startsAt: int, startsOffset: int, stats: Stats)

  // ----- accepted intervals -----

  function BucketMicroseconds(interval: int): Result<int, BucketError> {
    if interval <= 0 then Err(IntervalNotPositive)
    else if DAY_MICROSECONDS % interval != 0 && interval % DAY_MICROSECONDS != 0 then Err(IntervalDrifts)
    else Ok(interval)
  }

  /** An interval is accepted exactly when every midnight is a boundary, or every boundary a midnight. */
  lemma {:induction false} AcceptedIntervalsKeepMidnight(interval: int)
    requires interval > 0
    ensures BucketMicroseconds(interval) in [Ok(interval), Err(IntervalDrifts)]
    ensures BucketMicroseconds(interval) == Ok(interval)
            <==> (forall day: int :: Multiple(day, DAY_MICROSECONDS, interval))
                 || (forall n: int :: Multiple(n, interval, DAY_MICROSECONDS))
  {
    if DAY_MICROSECONDS % interval == 0 {
      forall day: int ensures Multiple(day, DAY_MICROSECONDS, interval) {
        MultipleOfMultiple(day, DAY_MICROSECONDS, interval);
      }
    } else {
      assert !Multiple(1, DAY_MICROSECONDS, interval);
    }
    if interval % DAY_MICROSECONDS == 0 {
      forall n: int ensures Multiple(n, interval, DAY_MICROSECONDS) {
        MultipleOfMultiple(n, interval, DAY_MICROSECONDS);
      }
    } else {
      assert !Multiple(1, interval, DAY_MICROSECONDS);
    }
  }

  // ----- rows with the key of their bucket -----

  datatype Keyed = Keyed(key: int, offset: int, value: real)

  function Aligned(row: Obs, local: bool): int {
    if local then row.at + row.offset * SECOND else row.at
  }

  predicate PostEpoch(rows: seq<Obs>, local: bool) {
    forall k :: 0 <= k < |rows| ==> Aligned(rows[k], local) >= 0
  }

  function PythonKey(row: Obs, interval: int, local: bool): Keyed
    requires interval > 0
  {
    Keyed(Aligned(row, local) / interval, row.offset, row.value)
  }

  function SqlKey(row: Obs, interval: int, local: bool): Keyed
    requires interval > 0
  {
    Keyed(TruncatedQuotient(Aligned(row, local), interval), row.offset, row.value)
  }

  function PythonKeys(rows: seq<Obs>, interval: int, local: bool): (keyed: seq<Keyed>)
    requires interval > 0
    ensures |keyed| == |rows|
  {
    seq(|rows|, k requires 0 <= k < |rows| => PythonKey(rows[k], interval, local))
  }

  function SqlKeys(rows: seq<Obs>, interval: int, local: bool): (keyed: seq<Keyed>)
    requires interval > 0
    ensures |keyed| == |rows|
  {
    seq(|rows|, k requires 0 <= k < |rows| => SqlKey(rows[k], interval, local))
  }

  /** Refusing rows stamped before the epoch is what makes truncation harmless. */
  lemma SameKeysAfterEpoch(rows: seq<Obs>, interval: int, local: bool)
    requires interval > 0 && PostEpoch(rows, local)
    ensures SqlKeys(rows, interval, local) == PythonKeys(rows, interval, local)
  {
    forall k | 0 <= k < |rows| ensures SqlKey(rows[k], interval, local) == PythonKey(rows[k], interval, local) {
      DivisionsAgree(Aligned(rows[k], local), interval);
    }
  }

  // ----- groups -----

  /** The rows of one bucket, in order. */
  function Members(rows: seq<Keyed>, key: int): (members: seq<Keyed>)
    ensures |members| <= |rows|
    ensures forall k :: 0 <= k < |members| ==> members[k].key == key
  {
    if rows == [] then []
    else
      var last := rows[|rows| - 1];
      Members(rows[..|rows| - 1], key) + if last.key == key then [last] else []
  }

  function Values(rows: seq<Keyed>): (values: seq<real>)
    ensures |values| == |rows|
  {
    seq(|rows|, k requires 0 <= k < |rows| => rows[k].value)
  }

  ghost predicate Occurs(rows: seq<Keyed>, key: int) {
    exists k :: 0 <= k < |rows| && rows[k].key == key
  }

  lemma {:induction false} OccursMeansMembers(rows: seq<Keyed>, key: int)
    ensures Occurs(rows, key) <==> Members(rows, key) != []
  {
    if rows != [] {
      var n := |rows| - 1;
      OccursMeansMembers(rows[..n], key);
      if rows[n].key != key && Occurs(rows, key) {
        var k :| 0 <= k < |rows| && rows[k].key == key;
        assert rows[..n][k].key == key;
      }
    }
  }

  lemma {:induction false} MembersOfAppend(rows: seq<Keyed>, row: Keyed, key: int)
    ensures Members(rows + [row], key) == Members(rows, key) + if row.key == key then [row] else []
  {
    assert (rows + [row])[..|rows|] == rows;
  }

  /** One group: its key, its statistics, and the offset its start is rendered in. */
  datatype Group = Group(key: int, stats: Stats, offset: int)

  ghost predicate Ascending(groups: seq<Group>) {
    forall i, j :: 0 <= i < j < |groups| ==> groups[i].key < groups[j].key
  }

  /** Keys ascending, every key that occurs and no other, statistics over all of each key's rows. */
  ghost predicate Groups(rows: seq<Keyed>, groups: seq<Group>) {
    && Ascending(groups)
    && (forall key :: Occurs(rows, key) ==> exists n :: 0 <= n < |groups| && groups[n].key == key)
    && (forall n :: 0 <= n < |groups| ==> Summarizes(Members(rows, groups[n].key), groups[n].stats))
  }

  ghost predicate Summarizes(members: seq<Keyed>, stats: Stats) {
    members != [] && stats == StatsOf(Values(members))
  }

  ghost predicate FirstOffsets(rows: seq<Keyed>, groups: seq<Group>) {
    forall n :: 0 <= n < |groups| ==> IsFirstOffset(Members(rows, groups[n].key), groups[n].offset)
  }

  ghost predicate IsFirstOffset(members: seq<Keyed>, offset: int) {
    members != [] && offset == members[0].offset
  }

  ghost predicate IsSmallestOffset(members: seq<Keyed>, offset: int) {
    && (exists k :: 0 <= k < |members| && members[k].offset == offset)
    && (forall k :: 0 <= k < |members| ==> offset <= members[k].offset)
  }

  ghost predicate SmallestOffsets(rows: seq<Keyed>, groups: seq<Group>) {
    forall n :: 0 <= n < |groups| ==> IsSmallestOffset(Members(rows, groups[n].key), groups[n].offset)
  }

  /** In every bucket, no row has a smaller offset than the first one. */
  ghost predicate FirstOffsetIsSmallest(rows: seq<Keyed>) {
    forall key :: Occurs(rows, key) ==> Members(rows, key) != [] && IsSmallestOffset(Members(rows, key), Members(rows, key)[0].offset)
  }

  lemma {:induction false} SameAt(x: seq<int>, y: seq<int>, n: nat)
    requires Rising(x) && Rising(y) && n < |x| && forall v :: v in x <==> v in y
    ensures n < |y| && x[n] == y[n]
  {
    var v := x[n];
    assert v in x && v in y;
    var m :| 0 <= m < |y| && y[m] == v;
    if n > 0 {
      SameAt(x, y, n - 1);
      assert y[n - 1] < y[m];
    }
    var w := y[n];
    assert w in y && w in x;
    var l :| 0 <= l < |x| && x[l] == w;
    assert x[l] <= x[n];
  }

  /** Two rising lists of the same elements are the same list. */
  lemma RisingIsUnique(x: seq<int>, y: seq<int>)
    requires Rising(x) && Rising(y) && forall v :: v in x <==> v in y
    ensures x == y
  {
    forall n | 0 <= n < |x| ensures n < |y| && x[n] == y[n] {
      SameAt(x, y, n);
    }
    if |y| > 0 {
      SameAt(y, x, |y| - 1);
    }
    if |x| > 0 {
      SameAt(x, y, |x| - 1);
    }
  }

  function KeysOf(groups: seq<Group>): (keys: seq<int>)
    ensures |keys| == |groups|
  {
    seq(|groups|, n requires 0 <= n < |groups| => groups[n].key)
  }

  lemma KeysAreThoseOccurring(rows: seq<Keyed>, groups: seq<Group>, key: int)
    requires Groups(rows, groups)
    ensures key in KeysOf(groups) <==> Occurs(rows, key)
  {
    OccursMeansMembers(rows, key);
    if Occurs(rows, key) {
      var n :| 0 <= n < |groups| && groups[n].key == key;
      assert KeysOf(groups)[n] == key;
    }
  }

  /** A grouping is determined by the rows, up to the offset chosen for each group. */
  lemma GroupsAreUnique(rows: seq<Keyed>, a: seq<Group>, b: seq<Group>)
    requires Groups(rows, a) && Groups(rows, b)
    ensures |a| == |b| && forall n :: 0 <= n < |a| ==> a[n].key == b[n].key && a[n].stats == b[n].stats
  {
    forall key ensures key in KeysOf(a) <==> key in KeysOf(b) {
      KeysAreThoseOccurring(rows, a, key);
      KeysAreThoseOccurring(rows, b, key);
    }
    RisingIsUnique(KeysOf(a), KeysOf(b));
    forall n | 0 <= n < |a| ensures a[n].key == b[n].key && a[n].stats == b[n].stats {
      assert KeysOf(a)[n] == KeysOf(b)[n];
    }
  }

  // ----- the Python path -----

  /** Turn a group back into the interval it covers. */
  function ToBucket(g: Group, interval: int, local: bool): Bucket {
    var shown := if local then g.offset else 0;
    Bucket(g.key * interval - shown * SECOND, shown, g.stats)
  }

  /** What the two dictionaries hold after some rows. */
  ghost predicate Grouped(rows: seq<Keyed>, grouped: map<int, seq<real>>, offsets: map<int, int>) {
    && (forall key :: key in grouped <==> key in offsets)
    && (forall key :: Occurs(rows, key) <==> key in grouped)
    && (forall key :: key in grouped ==> HoldsGroup(Members(rows, key), grouped[key], offsets[key]))
  }

  ghost predicate HoldsGroup(members: seq<Keyed>, values: seq<real>, offset: int) {
    members != [] && values == Values(members) && offset == members[0].offset
  }

  lemma GroupOne(rows: seq<Keyed>, row: Keyed, grouped: map<int, seq<real>>, offsets: map<int, int>,
                 more: map<int, seq<real>>, moreOffsets: map<int, int>)
    requires Grouped(rows, grouped, offsets)
    requires more == grouped[row.key := (if row.key in grouped then grouped[row.key] else []) + [row.value]]
    requires moreOffsets == if row.key in offsets then offsets else offsets[row.key := row.offset]
    ensures Grouped(rows + [row], more, moreOffsets)
  {
    var all := rows + [row];
    forall key ensures Occurs(all, key) <==> Occurs(rows, key) || key == row.key {
      if Occurs(rows, key) {
        var k :| 0 <= k < |rows| && rows[k].key == key;
        assert all[k].key == key;
      }
      assert all[|rows|].key == row.key;
    }
    forall key | key in more ensures HoldsGroup(Members(all, key), more[key], moreOffsets[key]) {
      MembersOfAppend(rows, row, key);
      OccursMeansMembers(rows, key);
      if key == row.key && key in grouped {
        assert Values(Members(rows, key) + [row]) == Values(Members(rows, key)) + [row.value];
      }
    }
  }

  /** The keys of a dictionary in order, as `sorted` returns them. */
  function Sorted(s: set<int>): (sorted: seq<int>)
    ensures forall i, j :: 0 <= i < j < |sorted| ==> sorted[i] < sorted[j]
    ensures forall x :: x in sorted <==> x in s
  {
    if s == {} then []
    else
      HasLeast(s);
      var least :| least in s && forall x :: x in s ==> least <= x;
      [least] + Sorted(s - {least})
  }

  ghost function Element<T>(s: set<T>): (x: T)
    requires s != {}
    ensures x in s
  {
    var x :| x in s;
    x
  }

  lemma HasLeast(s: set<int>)
    requires s != {}
    ensures exists least :: least in s && forall x :: x in s ==> least <= x
  {
    var x: int := Element(s);
    assert forall z :: z in s ==> z == x || z in s - {x};
    if s - {x} != {} {
      HasLeast(s - {x});
      var y :| y in s - {x} && forall z :: z in s - {x} ==> y <= z;
      var least := if x < y then x else y;
      assert least in s && forall z :: z in s ==> least <= z;
    } else {
      assert x in s && forall z :: z in s ==> x <= z;
    }
  }

  lemma {:induction false} GroupOfKey(rows: seq<Keyed>, grouped: map<int, seq<real>>, offsets: map<int, int>, key: int)
    requires Grouped(rows, grouped, offsets) && key in grouped.Keys
    ensures key in offsets && grouped[key] != []
    ensures Summarizes(Members(rows, key), StatsOf(grouped[key])) && IsFirstOffset(Members(rows, key), offsets[key])
  {
    assert HoldsGroup(Members(rows, key), grouped[key], offsets[key]);
  }

  lemma GroupNext(rows: seq<Keyed>, i: nat, grouped: map<int, seq<real>>, offsets: map<int, int>,
                  more: map<int, seq<real>>, moreOffsets: map<int, int>)
    requires i < |rows| && Grouped(rows[..i], grouped, offsets)
    requires var row := rows[i];
             && more == grouped[row.key := (if row.key in grouped then grouped[row.key] else []) + [row.value]]
             && moreOffsets == if row.key in offsets then offsets else offsets[row.key := row.offset]
    ensures Grouped(rows[..i + 1], more, moreOffsets)
  {
    GroupOne(rows[..i], rows[i], grouped, offsets, more, moreOffsets);
    assert rows[..i + 1] == rows[..i] + [rows[i]];
  }

  lemma {:induction false} NoGroupIsEmpty(rows: seq<Keyed>, grouped: map<int, seq<real>>, offsets: map<int, int>)
    requires Grouped(rows, grouped, offsets)
    ensures forall key :: key in grouped ==> key in offsets && grouped[key] != []
  {
    forall key | key in grouped ensures key in offsets && grouped[key] != [] {
      GroupOfKey(rows, grouped, offsets, key);
    }
  }

  /** The dictionaries' entries in key order. */
  ghost predicate InKeyOrder(sorted: seq<int>, grouped: map<int, seq<real>>, offsets: map<int, int>, groups: seq<Group>) {
    && |groups| == |sorted|
    && forall n :: 0 <= n < |sorted| ==> IsEntry(sorted[n], grouped, offsets, groups[n])
  }

  ghost predicate IsEntry(key: int, grouped: map<int, seq<real>>, offsets: map<int, int>, group: Group) {
    && key in grouped && key in offsets && grouped[key] != []
    && group == Group(key, StatsOf(grouped[key]), offsets[key])
  }

  /** Read the groups out of the dictionaries, oldest first. */
  method InOrder(grouped: map<int, seq<real>>, offsets: map<int, int>) returns (groups: seq<Group>)
    requires forall key :: key in grouped ==> key in offsets && grouped[key] != []
    ensures InKeyOrder(Sorted(grouped.Keys), grouped, offsets, groups)
  {
    var sorted := Sorted(grouped.Keys);
    groups := [];
    for n := 0 to |sorted|
      invariant |groups| == n && forall k :: 0 <= k < n ==> IsEntry(sorted[k], grouped, offsets, groups[k])
    {
      var key := sorted[n];
      assert key in sorted;
      groups := groups + [Group(key, StatsOf(grouped[key]), offsets[key])];
    }
  }

  lemma EntriesAreGroups(rows: seq<Keyed>, grouped: map<int, seq<real>>, offsets: map<int, int>, groups: seq<Group>)
    requires Grouped(rows, grouped, offsets) && InKeyOrder(Sorted(grouped.Keys), grouped, offsets, groups)
    ensures Groups(rows, groups) && FirstOffsets(rows, groups)
  {
    var sorted := Sorted(grouped.Keys);
    forall n | 0 <= n < |groups|
      ensures groups[n].key == sorted[n] && Summarizes(Members(rows, groups[n].key), groups[n].stats)
      ensures IsFirstOffset(Members(rows, groups[n].key), groups[n].offset)
    {
      assert IsEntry(sorted[n], grouped, offsets, groups[n]);
      GroupOfKey(rows, grouped, offsets, sorted[n]);
    }
    forall key | Occurs(rows, key) ensures exists n :: 0 <= n < |groups| && groups[n].key == key {
      assert key in sorted;
      var n :| 0 <= n < |sorted| && sorted[n] == key;
      assert groups[n].key == key;
    }
  }

  ghost predicate IsRendering(buckets: seq<Bucket>, groups: seq<Group>, interval: int, local: bool) {
    |buckets| == |groups| && forall n :: 0 <= n < |groups| ==> buckets[n] == ToBucket(groups[n], interval, local)
  }

  method Render(groups: seq<Group>, interval: int, local: bool) returns (buckets: seq<Bucket>)
    ensures IsRendering(buckets, groups, interval, local)
  {
    buckets := [];
    for n := 0 to |groups|
      invariant |buckets| == n && forall k :: 0 <= k < n ==> buckets[k] == ToBucket(groups[k], interval, local)
    {
      buckets := buckets + [ToBucket(groups[n], interval, local)];
    }
  }

  // ----- what a bucket says of the rows -----

  /** The clock reading a row is aligned by: its own wall clock, or UTC. */
  ghost predicate ClockWithin(row: Obs, local: bool, from: int, interval: int) {
    from <= row.at + (if local then row.offset * 1_000_000 else 0) < from + interval
  }

  /** The values of the rows whose clock stood inside an interval, in order. */
  ghost function ValuesWithin(rows: seq<Obs>, local: bool, from: int, interval: int): seq<real> {
    if rows == [] then []
    else
      var last := rows[|rows| - 1];
      ValuesWithin(rows[..|rows| - 1], local, from, interval)
      + if ClockWithin(last, local, from, interval) then [last.value] else []
  }

  /** A bucket starts on a boundary of its own clock, and its statistics are those of every row whose clock stood inside. */
  ghost predicate BucketIsTrue(rows: seq<Obs>, interval: int, local: bool, b: Bucket)
    requires interval > 0
  {
    var from := b.startsAt + b.startsOffset * 1_000_000;
    && from % interval == 0
    && (!local ==> b.startsOffset == 0)
    && ValuesWithin(rows, local, from, interval) != []
    && b.stats == StatsOf(ValuesWithin(rows, local, from, interval))
    && (forall k :: 0 <= k < |rows| && (local ==> rows[k].offset == b.startsOffset) ==>
          (ClockWithin(rows[k], local, from, interval) <==> b.startsAt <= rows[k].at < b.startsAt + interval))
  }

  ghost predicate InBucket(row: Obs, local: bool, b: Bucket, interval: int) {
    ClockWithin(row, local, b.startsAt + b.startsOffset * 1_000_000, interval)
  }

  /** Every bucket is true, they ascend on their clocks, and every row is in one. */
  ghost predicate BucketsAreTrue(rows: seq<Obs>, interval: int, local: bool, buckets: seq<Bucket>)
    requires interval > 0
  {
    && (forall n :: 0 <= n < |buckets| ==> BucketIsTrue(rows, interval, local, buckets[n]))
    && (forall m, n :: 0 <= m < n < |buckets| ==>
          buckets[m].startsAt + buckets[m].startsOffset * 1_000_000 + interval <= buckets[n].startsAt + buckets[n].startsOffset * 1_000_000)
    && (forall k :: 0 <= k < |rows| ==> exists n :: 0 <= n < |buckets| && InBucket(rows[k], local, buckets[n], interval))
  }

  /** The bucket is shown in the offset of its first row. */
  ghost predicate ShownAsFirst(rows: seq<Obs>, interval: int, b: Bucket) {
    exists k :: 0 <= k < |rows| && InBucket(rows[k], true, b, interval) && rows[k].offset == b.startsOffset
                && forall j :: 0 <= j < k ==> !InBucket(rows[j], true, b, interval)
  }

  /** The bucket is shown in the smallest offset among its rows. */
  ghost predicate ShownAsSmallest(rows: seq<Obs>, interval: int, b: Bucket) {
    && (exists k :: 0 <= k < |rows| && InBucket(rows[k], true, b, interval) && rows[k].offset == b.startsOffset)
    && (forall k :: 0 <= k < |rows| && InBucket(rows[k], true, b, interval) ==> b.startsOffset <= rows[k].offset)
  }

  lemma KeyIsClock(row: Obs, interval: int, local: bool, key: int)
    requires interval > 0
    ensures PythonKey(row, interval, local).key == key <==> ClockWithin(row, local, key * interval, interval)
  {
    var clock := Aligned(row, local);
    var q := clock / interval;
    assert clock == q * interval + clock % interval;
    if ClockWithin(row, local, key * interval, interval) {
      FloorIs(clock, interval, key);
    }
  }

  lemma {:induction false} MembersAreWithin(rows: seq<Obs>, interval: int, local: bool, key: int)
    requires interval > 0
    ensures Values(Members(PythonKeys(rows, interval, local), key)) == ValuesWithin(rows, local, key * interval, interval)
  {
    if rows != [] {
      var n := |rows| - 1;
      var keyed := PythonKeys(rows, interval, local);
      MembersAreWithin(rows[..n], interval, local, key);
      assert keyed[..n] == PythonKeys(rows[..n], interval, local);
      KeyIsClock(rows[n], interval, local, key);
    }
  }

  lemma RenderedStart(g: Group, interval: int, local: bool)
    requires interval > 0
    ensures var b := ToBucket(g, interval, local);
            && b.startsAt + b.startsOffset * 1_000_000 == g.key * interval
            && (b.startsAt + b.startsOffset * 1_000_000) % interval == 0
            && b.startsOffset == (if local then g.offset else 0) && b.stats == g.stats
  {
    FloorIs(g.key * interval, interval, g.key);
  }

  lemma RenderedIsTrue(rows: seq<Obs>, interval: int, local: bool, groups: seq<Group>, n: int)
    requires interval > 0 && 0 <= n < |groups| && Groups(PythonKeys(rows, interval, local), groups)
    ensures BucketIsTrue(rows, interval, local, ToBucket(groups[n], interval, local))
  {
    RenderedStart(groups[n], interval, local);
    assert Summarizes(Members(PythonKeys(rows, interval, local), groups[n].key), groups[n].stats);
    MembersAreWithin(rows, interval, local, groups[n].key);
  }

  lemma RenderingIsTrue(rows: seq<Obs>, interval: int, local: bool, groups: seq<Group>, buckets: seq<Bucket>)
    requires interval > 0 && Groups(PythonKeys(rows, interval, local), groups) && IsRendering(buckets, groups, interval, local)
    ensures BucketsAreTrue(rows, interval, local, buckets)
  {
    var keyed := PythonKeys(rows, interval, local);
    forall n | 0 <= n < |buckets| ensures BucketIsTrue(rows, interval, local, buckets[n]) {
      RenderedIsTrue(rows, interval, local, groups, n);
    }
    forall m, n | 0 <= m < n < |buckets|
      ensures buckets[m].startsAt + buckets[m].startsOffset * 1_000_000 + interval
           <= buckets[n].startsAt + buckets[n].startsOffset * 1_000_000
    {
      RenderedStart(groups[m], interval, local);
      RenderedStart(groups[n], interval, local);
      StepUp(groups[m].key, groups[n].key, interval);
    }
    forall k | 0 <= k < |rows| ensures exists n :: 0 <= n < |buckets| && InBucket(rows[k], local, buckets[n], interval) {
      assert Occurs(keyed, keyed[k].key);
      var n :| 0 <= n < |groups| && groups[n].key == keyed[k].key;
      RenderedStart(groups[n], interval, local);
      KeyIsClock(rows[k], interval, local, groups[n].key);
      assert InBucket(rows[k], local, buckets[n], interval);
    }
  }

  lemma {:induction false} FirstMember(rows: seq<Keyed>, key: int, k: int)
    requires 0 <= k < |rows| && rows[k].key == key && forall j :: 0 <= j < k ==> rows[j].key != key
    ensures Members(rows, key) != [] && Members(rows, key)[0] == rows[k]
  {
    var n := |rows| - 1;
    if k < n {
      FirstMember(rows[..n], key, k);
    } else {
      OccursMeansMembers(rows[..n], key);
    }
  }

  lemma FirstOccurrence(rows: seq<Keyed>, key: int) returns (k: int)
    requires Occurs(rows, key)
    ensures 0 <= k < |rows| && rows[k].key == key && forall j :: 0 <= j < k ==> rows[j].key != key
  {
    k := 0;
    while rows[k].key != key
      invariant 0 <= k < |rows| && forall j :: 0 <= j < k ==> rows[j].key != key
      invariant exists j :: k <= j < |rows| && rows[j].key == key
      decreases |rows| - k
    {
      k := k + 1;
    }
  }

  lemma PythonShowsFirst(rows: seq<Obs>, interval: int, groups: seq<Group>, n: int)
    requires interval > 0 && Groups(PythonKeys(rows, interval, true), groups) && 0 <= n < |groups|
    requires FirstOffsets(PythonKeys(rows, interval, true), groups)
    ensures ShownAsFirst(rows, interval, ToBucket(groups[n], interval, true))
  {
    var keyed, g := PythonKeys(rows, interval, true), groups[n];
    assert IsFirstOffset(Members(keyed, g.key), g.offset);
    OccursMeansMembers(keyed, g.key);
    var k := FirstOccurrence(keyed, g.key);
    FirstMember(keyed, g.key, k);
    RenderedStart(g, interval, true);
    forall j | 0 <= j <= k ensures InBucket(rows[j], true, ToBucket(g, interval, true), interval) <==> keyed[j].key == g.key {
      KeyIsClock(rows[j], interval, true, g.key);
    }
    assert InBucket(rows[k], true, ToBucket(g, interval, true), interval);
  }

  ghost predicate HasOffset(members: seq<Keyed>, offset: int) {
    exists m :: 0 <= m < |members| && members[m].offset == offset
  }

  ghost predicate RowHasOffset(rows: seq<Keyed>, key: int, offset: int) {
    exists k :: 0 <= k < |rows| && rows[k].key == key && rows[k].offset == offset
  }

  lemma HasOffsetAppend(members: seq<Keyed>, row: Keyed, offset: int)
    ensures HasOffset(members + [row], offset) <==> HasOffset(members, offset) || row.offset == offset
  {
    var more := members + [row];
    assert more[|members|] == row;
    if HasOffset(members, offset) {
      var m :| 0 <= m < |members| && members[m].offset == offset;
      assert more[m] == members[m];
    }
  }

  lemma RowHasOffsetInit(rows: seq<Keyed>, key: int, offset: int)
    requires rows != []
    ensures var n := |rows| - 1;
            RowHasOffset(rows, key, offset) <==> RowHasOffset(rows[..n], key, offset) || (rows[n].key == key && rows[n].offset == offset)
  {
    var n := |rows| - 1;
    if RowHasOffset(rows[..n], key, offset) {
      var k :| 0 <= k < n && rows[..n][k].key == key && rows[..n][k].offset == offset;
      assert rows[k] == rows[..n][k];
    }
    if RowHasOffset(rows, key, offset) {
      var k :| 0 <= k < |rows| && rows[k].key == key && rows[k].offset == offset;
      assert k < n ==> rows[..n][k] == rows[k];
    }
  }

  lemma {:induction false} MemberIsRow(rows: seq<Keyed>, key: int, offset: int)
    ensures HasOffset(Members(rows, key), offset) <==> RowHasOffset(rows, key, offset)
  {
    if rows != [] {
      var n := |rows| - 1;
      MemberIsRow(rows[..n], key, offset);
      RowHasOffsetInit(rows, key, offset);
      HasOffsetAppend(Members(rows[..n], key), rows[n], offset);
      if rows[n].key == key {
        assert Members(rows, key) == Members(rows[..n], key) + [rows[n]];
      } else {
        assert Members(rows, key) == Members(rows[..n], key);
      }
    }
  }

  lemma SqlShowsSmallest(rows: seq<Obs>, interval: int, groups: seq<Group>, n: int)
    requires interval > 0 && Groups(PythonKeys(rows, interval, true), groups) && 0 <= n < |groups|
    requires SmallestOffsets(PythonKeys(rows, interval, true), groups)
    ensures ShownAsSmallest(rows, interval, ToBucket(groups[n], interval, true))
  {
    var keyed, g := PythonKeys(rows, interval, true), groups[n];
    var b, members := ToBucket(g, interval, true), Members(keyed, g.key);
    assert IsSmallestOffset(members, g.offset);
    RenderedStart(g, interval, true);
    forall k | 0 <= k < |rows| ensures InBucket(rows[k], true, b, interval) <==> keyed[k].key == g.key {
      KeyIsClock(rows[k], interval, true, g.key);
    }
    MemberIsRow(keyed, g.key, g.offset);
    assert HasOffset(members, g.offset) && RowHasOffset(keyed, g.key, g.offset);
    var first :| 0 <= first < |keyed| && keyed[first].key == g.key && keyed[first].offset == g.offset;
    assert InBucket(rows[first], true, b, interval);
    forall k | 0 <= k < |rows| && InBucket(rows[k], true, b, interval) ensures b.startsOffset <= rows[k].offset {
      assert keyed[k].offset == rows[k].offset && RowHasOffset(keyed, g.key, rows[k].offset);
      MemberIsRow(keyed, g.key, rows[k].offset);
      var m :| 0 <= m < |members| && members[m].offset == rows[k].offset;
    }
  }

  /** The buckets of the Python path are true of the rows, and each is shown in the offset of its first row. */
  lemma PythonIsTrue(rows: seq<Obs>, interval: int, local: bool, groups: seq<Group>, buckets: seq<Bucket>)
    requires interval > 0 && Groups(PythonKeys(rows, interval, local), groups) && IsRendering(buckets, groups, interval, local)
    requires FirstOffsets(PythonKeys(rows, interval, local), groups)
    ensures BucketsAreTrue(rows, interval, local, buckets)
    ensures local ==> forall n :: 0 <= n < |buckets| ==> ShownAsFirst(rows, interval, buckets[n])
  {
    RenderingIsTrue(rows, interval, local, groups, buckets);
    if local {
      forall n | 0 <= n < |buckets| ensures ShownAsFirst(rows, interval, buckets[n]) {
        PythonShowsFirst(rows, interval, groups, n);
      }
    }
  }

  /** The buckets of the SQL path are true of the rows, and each is shown in the smallest offset among its rows. */
  lemma SqlIsTrue(rows: seq<Obs>, interval: int, local: bool, answer: seq<Group>, buckets: seq<Bucket>)
    requires interval > 0 && PostEpoch(rows, local) && SqlAnswer(rows, interval, local, answer)
    requires IsRendering(buckets, answer, interval, local)
    ensures BucketsAreTrue(rows, interval, local, buckets)
    ensures local ==> forall n :: 0 <= n < |buckets| ==> ShownAsSmallest(rows, interval, buckets[n])
  {
    SameKeysAfterEpoch(rows, interval, local);
    RenderingIsTrue(rows, interval, local, answer, buckets);
    if local {
      forall n | 0 <= n < |buckets| ensures ShownAsSmallest(rows, interval, buckets[n]) {
        SqlShowsSmallest(rows, interval, answer, n);
      }
    }
  }

  /** Some row's clock stood before 1970. */
  ghost predicate BeforeEpoch(rows: seq<Obs>, local: bool) {
    exists k :: 0 <= k < |rows| && rows[k].at + (if local then rows[k].offset * 1_000_000 else 0) < 0
  }

  lemma BeforeOrPostEpoch(rows: seq<Obs>, local: bool)
    ensures BeforeEpoch(rows, local) <==> !PostEpoch(rows, local)
  {
    if k :| 0 <= k < |rows| && rows[k].at + (if local then rows[k].offset * 1_000_000 else 0) < 0 {
      assert Aligned(rows[k], local) < 0;
    }
    if k :| 0 <= k < |rows| && Aligned(rows[k], local) < 0 {
      assert rows[k].at + (if local then rows[k].offset * 1_000_000 else 0) < 0;
    }
  }

  method AggregateBuckets(rows: seq<Obs>, interval: int, local: bool)
    returns (result: Result<seq<Bucket>, BucketError>, ghost groups: seq<Group>)
    requires interval > 0
    ensures !PostEpoch(rows, local) ==> result == Err(PreEpoch)
    ensures PostEpoch(rows, local) ==>
              && Groups(PythonKeys(rows, interval, local), groups)
              && FirstOffsets(PythonKeys(rows, interval, local), groups)
              && result.Ok? && IsRendering(result.value, groups, interval, local)
    ensures result.Err? <==> BeforeEpoch(rows, local)
  {
    BeforeOrPostEpoch(rows, local);
    groups := [];
    ghost var keyed := PythonKeys(rows, interval, local);
    var grouped: map<int, seq<real>>, offsets: map<int, int> := map[], map[];
    for i := 0 to |rows|
      invariant forall k :: 0 <= k < i ==> Aligned(rows[k], local) >= 0
      invariant Grouped(keyed[..i], grouped, offsets)
    {
      var row := rows[i];
      var instant := if local then row.at + row.offset * SECOND else row.at;
      if instant < 0 {
        assert Aligned(rows[i], local) < 0;
        return Err(PreEpoch), [];
      }
      var key := instant / interval;
      ghost var before, beforeOffsets := grouped, offsets;
      assert keyed[i] == Keyed(key, row.offset, row.value);
      grouped := grouped[key := (if key in grouped then grouped[key] else []) + [row.value]];
      offsets := if key in offsets then offsets else offsets[key := row.offset];
      GroupNext(keyed, i, before, beforeOffsets, grouped, offsets);
    }
    assert keyed[..|rows|] == keyed;
    NoGroupIsEmpty(keyed, grouped, offsets);
    var found := InOrder(grouped, offsets);
    EntriesAreGroups(keyed, grouped, offsets, found);
    var buckets := Render(found, interval, local);
    return Ok(buckets), found;
  }

  // ----- the SQL path -----

  /** What GROUP BY may answer: any grouping of the truncated keys, with MIN(observed_at_offset_s) as its offset. */
  ghost predicate SqlAnswer(rows: seq<Obs>, interval: int, local: bool, answer: seq<Group>)
    requires interval > 0
  {
    Groups(SqlKeys(rows, interval, local), answer) && SmallestOffsets(SqlKeys(rows, interval, local), answer)
  }

  method BucketedInSql(rows: seq<Obs>, interval: int, local: bool, answer: seq<Group>)
    returns (result: Result<seq<Bucket>, BucketError>)
    requires interval > 0 && SqlAnswer(rows, interval, local, answer)
    ensures !PostEpoch(rows, local) ==> result == Err(PreEpoch)
    ensures PostEpoch(rows, local) ==> result.Ok? && IsRendering(result.value, answer, interval, local)
    ensures result.Err? <==> BeforeEpoch(rows, local)
  {
    BeforeOrPostEpoch(rows, local);
    var early := false;
    for i := 0 to |rows|
      invariant early <==> exists k :: 0 <= k < i && Aligned(rows[k], local) < 0
    {
      early := early || Aligned(rows[i], local) < 0;
    }
    if early {
      return Err(PreEpoch);
    }
    var buckets := Render(answer, interval, local);
    return Ok(buckets);
  }

  lemma OffsetsAgree(rows: seq<Keyed>, python: seq<Group>, sql: seq<Group>)
    requires Groups(rows, python) && FirstOffsets(rows, python) && Groups(rows, sql) && SmallestOffsets(rows, sql)
    ensures python == sql <==> FirstOffsetIsSmallest(rows)
  {
    GroupsAreUnique(rows, python, sql);
    if FirstOffsetIsSmallest(rows) {
      forall n | 0 <= n < |python| ensures python[n] == sql[n] {
        OccursMeansMembers(rows, python[n].key);
        var members := Members(rows, sql[n].key);
        assert IsSmallestOffset(members, python[n].offset) && IsSmallestOffset(members, sql[n].offset);
      }
    }
    if python == sql {
      forall key | Occurs(rows, key)
        ensures Members(rows, key) != [] && IsSmallestOffset(Members(rows, key), Members(rows, key)[0].offset)
      {
        var n :| 0 <= n < |sql| && sql[n].key == key;
        assert IsSmallestOffset(Members(rows, sql[n].key), sql[n].offset);
      }
    }
  }

  /** The two paths are one report: the same refusals, the same buckets in the same order with the same statistics;
      and the same starts exactly when alignment is UTC or each bucket's first row has its smallest offset. */
  lemma PathsAgree(rows: seq<Obs>, interval: int, local: bool, python: seq<Group>, sql: seq<Group>,
                   pythonBuckets: seq<Bucket>, sqlBuckets: seq<Bucket>)
    requires interval > 0 && PostEpoch(rows, local)
    requires Groups(PythonKeys(rows, interval, local), python) && FirstOffsets(PythonKeys(rows, interval, local), python)
    requires SqlAnswer(rows, interval, local, sql)
    requires IsRendering(pythonBuckets, python, interval, local) && IsRendering(sqlBuckets, sql, interval, local)
    ensures |pythonBuckets| == |sqlBuckets|
    ensures forall n :: 0 <= n < |sqlBuckets| ==> pythonBuckets[n].stats == sqlBuckets[n].stats
    ensures pythonBuckets == sqlBuckets <==> !local || FirstOffsetIsSmallest(PythonKeys(rows, interval, local))
  {
    var keyed := PythonKeys(rows, interval, local);
    SameKeysAfterEpoch(rows, interval, local);
    GroupsAreUnique(keyed, python, sql);
    OffsetsAgree(keyed, python, sql);
    forall n | 0 <= n < |python|
      ensures pythonBuckets[n].stats == sqlBuckets[n].stats
      ensures pythonBuckets[n] == sqlBuckets[n] <==> !local || python[n] == sql[n]
    {
      RenderingSeparates(python[n], sql[n], interval, local);
    }
  }

  lemma RenderingSeparates(a: Group, b: Group, interval: int, local: bool)
    requires a.key == b.key && a.stats == b.stats
    ensures ToBucket(a, interval, local) == ToBucket(b, interval, local) <==> !local || a == b
  {
  }
}
