/** What bucketing keeps: nothing is lost between rows and buckets, and coarser buckets are finer ones merged. */
module BucketLaws {
  import opened Basics
  import opened Division
  import opened Statistics
  import opened Pooling
  import opened Buckets

  // ----- gathering buckets back together -----

  ghost predicate Listed(keys: seq<int>, key: int) {
    exists n :: 0 <= n < |keys| && keys[n] == key
  }

  function Lists(rows: seq<Keyed>, keys: seq<int>): (lists: seq<seq<real>>)
    ensures |lists| == |keys|
  {
    seq(|keys|, n requires 0 <= n < |keys| => Values(Members(rows, keys[n])))
  }

  /** The values of the listed buckets, one bucket after another. */
  function Gather(rows: seq<Keyed>, keys: seq<int>): seq<real> {
    Flatten(Lists(rows, keys))
  }

  /** The values of the rows whose bucket is listed, in row order. */
  ghost function Select(rows: seq<Keyed>, keys: seq<int>): seq<real> {
    if rows == [] then []
    else
      var last := rows[|rows| - 1];
      Select(rows[..|rows| - 1], keys) + if Listed(keys, last.key) then [last.value] else []
  }

  /** The same values, counted with repetition, whatever their order. */
  ghost predicate SameBag(a: seq<real>, b: seq<real>) {
    multiset(a) == multiset(b) && Sum(a) == Sum(b)
  }

  lemma SameBagSameStats(a: seq<real>, b: seq<real>)
    requires SameBag(a, b) && a != []
    ensures b != [] && StatsOf(a) == StatsOf(b)
  {
    assert |multiset(a)| == |a| && |multiset(b)| == |b|;
    SameElements(a, b);
    assert Smallest(a) in b && Smallest(b) in a;
    assert Largest(a) in b && Largest(b) in a;
  }

  lemma SameElements(a: seq<real>, b: seq<real>)
    requires multiset(a) == multiset(b)
    ensures forall v :: v in a <==> v in b
  {
    forall v ensures v in a <==> v in b {
      assert v in a <==> v in multiset(a);
      assert v in b <==> v in multiset(b);
    }
  }

  lemma {:induction false} GatherLast(rows: seq<Keyed>, keys: seq<int>)
    requires keys != []
    ensures var n := |keys| - 1; Gather(rows, keys) == Gather(rows, keys[..n]) + Values(Members(rows, keys[n]))
  {
    var n := |keys| - 1;
    assert Lists(rows, keys)[..n] == Lists(rows, keys[..n]);
  }

  lemma ListedInit(keys: seq<int>, key: int)
    requires keys != []
    ensures Listed(keys, key) <==> Listed(keys[..|keys| - 1], key) || key == keys[|keys| - 1]
  {
    var n := |keys| - 1;
    if Listed(keys[..n], key) {
      var k :| 0 <= k < n && keys[..n][k] == key;
      assert keys[k] == key;
    }
    if Listed(keys, key) && key != keys[n] {
      var k :| 0 <= k < |keys| && keys[k] == key;
      assert keys[..n][k] == key;
    }
  }

  /** One more row adds its value once if its bucket is listed, and nothing otherwise. */
  lemma {:induction false} GatherAppend(rows: seq<Keyed>, row: Keyed, keys: seq<int>)
    requires Rising(keys)
    ensures Listed(keys, row.key) ==> SameBag(Gather(rows + [row], keys), Gather(rows, keys) + [row.value])
    ensures !Listed(keys, row.key) ==> Gather(rows + [row], keys) == Gather(rows, keys)
  {
    if keys != [] {
      var n := |keys| - 1;
      var init, more := keys[..n], rows + [row];
      GatherAppend(rows, row, init);
      GatherLast(rows, keys);
      GatherLast(more, keys);
      MembersOfAppend(rows, row, keys[n]);
      ListedInit(keys, row.key);
      var tail := Values(Members(rows, keys[n]));
      if row.key == keys[n] {
        NotListedBelow(keys, n);
        assert Values(Members(more, keys[n])) == tail + [row.value];
        assert Gather(more, keys) == Gather(rows, keys) + [row.value];
      } else {
        assert Values(Members(more, keys[n])) == tail;
        if Listed(init, row.key) {
          InsertInBag(Gather(more, init), Gather(rows, init), row.value, tail);
        }
      }
    }
  }

  lemma NotListedBelow(keys: seq<int>, n: int)
    requires Rising(keys) && 0 <= n < |keys|
    ensures !Listed(keys[..n], keys[n])
  {
    forall k | 0 <= k < n ensures keys[..n][k] != keys[n] {
      assert keys[k] < keys[n];
    }
  }

  lemma InsertInBag(grown: seq<real>, init: seq<real>, v: real, tail: seq<real>)
    requires SameBag(grown, init + [v])
    ensures SameBag(grown + tail, init + tail + [v])
  {
    SumConcat(grown, tail);
    SumConcat(init, tail);
    SumAppend(init, v);
    SumAppend(init + tail, v);
  }

  lemma {:induction false} GatherIsSelect(rows: seq<Keyed>, keys: seq<int>)
    requires Rising(keys)
    ensures SameBag(Gather(rows, keys), Select(rows, keys))
  {
    if rows == [] {
      EmptyGather(keys);
    } else {
      var n := |rows| - 1;
      var init, last := rows[..n], rows[n];
      assert rows == init + [last];
      GatherIsSelect(init, keys);
      GatherAppend(init, last, keys);
      if Listed(keys, last.key) {
        SumAppend(Gather(init, keys), last.value);
        SumAppend(Select(init, keys), last.value);
        assert Select(rows, keys) == Select(init, keys) + [last.value];
      } else {
        assert Select(rows, keys) == Select(init, keys);
        assert Gather(rows, keys) == Gather(init, keys);
      }
    }
  }

  lemma {:induction false} EmptyGather(keys: seq<int>)
    ensures Gather([], keys) == []
  {
    if keys != [] {
      GatherLast([], keys);
      EmptyGather(keys[..|keys| - 1]);
    }
  }

  // ----- conservation -----

  function StatsList(groups: seq<Group>): (stats: seq<Stats>)
    ensures |stats| == |groups|
  {
    seq(|groups|, n requires 0 <= n < |groups| => groups[n].stats)
  }

  lemma {:induction false} StatsOfGroups(rows: seq<Keyed>, groups: seq<Group>)
    requires forall n :: 0 <= n < |groups| ==> Summarizes(Members(rows, groups[n].key), groups[n].stats)
    ensures TotalCount(StatsList(groups)) == |Gather(rows, KeysOf(groups))|
    ensures WeightedTotal(StatsList(groups)) == Sum(Gather(rows, KeysOf(groups)))
    ensures groups != [] ==>
              && TotalCount(StatsList(groups)) > 0 && Gather(rows, KeysOf(groups)) != []
              && Merged(StatsList(groups)) == StatsOf(Gather(rows, KeysOf(groups)))
  {
    var lists := Lists(rows, KeysOf(groups));
    forall n | 0 <= n < |lists| ensures lists[n] != [] {
      assert Summarizes(Members(rows, groups[n].key), groups[n].stats);
    }
    assert StatsOfEach(lists) == StatsList(groups);
    PooledTotals(lists);
    if groups != [] {
      MergingSummarizesEveryReading(lists);
    }
  }

  lemma {:induction false} SelectAll(rows: seq<Keyed>, keys: seq<int>)
    requires forall k :: 0 <= k < |rows| ==> Listed(keys, rows[k].key)
    ensures Select(rows, keys) == Values(rows)
  {
    if rows != [] {
      var n := |rows| - 1;
      SelectAll(rows[..n], keys);
    }
  }

  /** Bucketing conserves: the counts add up to the rows, and the count-weighted means to their sum. */
  lemma {:induction false} BucketsConserve(rows: seq<Keyed>, groups: seq<Group>)
    requires Groups(rows, groups)
    ensures TotalCount(StatsList(groups)) == |rows|
    ensures WeightedTotal(StatsList(groups)) == Sum(Values(rows))
    ensures rows != [] ==> PooledMean(StatsList(groups)) == Some(StatsOf(Values(rows)).mean)
  {
    var keys := KeysOf(groups);
    forall k | 0 <= k < |rows| ensures Listed(keys, rows[k].key) {
      assert Occurs(rows, rows[k].key);
      var n :| 0 <= n < |groups| && groups[n].key == rows[k].key;
      assert keys[n] == rows[k].key;
    }
    SelectAll(rows, keys);
    GatherIsSelect(rows, keys);
    StatsOfGroups(rows, groups);
    assert |multiset(Gather(rows, keys))| == |Gather(rows, keys)| && |multiset(Values(rows))| == |rows|;
  }

  // ----- composition -----

  function Coarsen(rows: seq<Keyed>, c: int): (coarse: seq<Keyed>)
    requires c > 0
    ensures |coarse| == |rows|
  {
    seq(|rows|, k requires 0 <= k < |rows| => rows[k].(key := rows[k].key / c))
  }

  /** An interval `c` times as long keys every row by the quotient of its finer key. */
  lemma {:induction false} CoarserKeys(rows: seq<Obs>, interval: int, c: int, local: bool)
    requires interval > 0 && c > 0
    ensures interval * c > 0 && PythonKeys(rows, interval * c, local) == Coarsen(PythonKeys(rows, interval, local), c)
  {
    ProductPositive(interval, c);
    forall k | 0 <= k < |rows|
      ensures PythonKey(rows[k], interval * c, local).key == PythonKey(rows[k], interval, local).key / c
    {
      FloorOfFloor(Aligned(rows[k], local), interval, c);
    }
  }

  /** The finer groups inside one coarser interval, in order. */
  function Inside(groups: seq<Group>, c: int, key: int): (inside: seq<Group>)
    requires c > 0
    ensures |inside| <= |groups|
  {
    if groups == [] then []
    else
      var last := groups[|groups| - 1];
      Inside(groups[..|groups| - 1], c, key) + if last.key / c == key then [last] else []
  }

  lemma {:induction false} InsideIsThose(groups: seq<Group>, c: int, key: int)
    requires c > 0 && Ascending(groups)
    ensures var inside := Inside(groups, c, key);
            && Ascending(inside)
            && (forall n :: 0 <= n < |inside| ==> inside[n].key / c == key && exists m :: 0 <= m < |groups| && groups[m] == inside[n])
            && (forall m :: 0 <= m < |groups| && groups[m].key / c == key ==> Listed(KeysOf(inside), groups[m].key))
  {
    if groups != [] {
      var l := |groups| - 1;
      var init, last := groups[..l], groups[l];
      InsideIsThose(init, c, key);
      var before, inside := Inside(init, c, key), Inside(groups, c, key);
      forall n | 0 <= n < |inside|
        ensures inside[n].key / c == key && exists m :: 0 <= m < |groups| && groups[m] == inside[n]
      {
        if n < |before| {
          var m :| 0 <= m < |init| && init[m] == before[n];
          assert groups[m] == inside[n];
        } else {
          assert groups[l] == inside[n];
        }
      }
      forall i, j | 0 <= i < j < |inside| ensures inside[i].key < inside[j].key {
        var m :| 0 <= m < |init| && init[m] == before[i];
        assert groups[m].key < last.key;
      }
      forall m | 0 <= m < |groups| && groups[m].key / c == key ensures Listed(KeysOf(inside), groups[m].key) {
        if m < l {
          assert init[m] == groups[m];
          var n :| 0 <= n < |before| && KeysOf(before)[n] == groups[m].key;
          assert KeysOf(inside)[n] == groups[m].key;
        } else {
          assert KeysOf(inside)[|before|] == last.key;
        }
      }
    }
  }

  lemma {:induction false} SelectIsCoarseMembers(rows: seq<Keyed>, c: int, key: int, keys: seq<int>)
    requires c > 0
    requires forall k :: 0 <= k < |rows| ==> (Listed(keys, rows[k].key) <==> rows[k].key / c == key)
    ensures Select(rows, keys) == Values(Members(Coarsen(rows, c), key))
  {
    if rows != [] {
      var n := |rows| - 1;
      SelectIsCoarseMembers(rows[..n], c, key, keys);
      assert Coarsen(rows, c)[..n] == Coarsen(rows[..n], c);
    }
  }

  lemma {:induction false} FineKeysInside(rows: seq<Keyed>, fine: seq<Group>, c: int, key: int, k: int)
    requires c > 0 && Groups(rows, fine) && 0 <= k < |rows|
    ensures Listed(KeysOf(Inside(fine, c, key)), rows[k].key) <==> rows[k].key / c == key
  {
    var inside := Inside(fine, c, key);
    InsideIsThose(fine, c, key);
    assert Occurs(rows, rows[k].key);
    var m :| 0 <= m < |fine| && fine[m].key == rows[k].key;
    if Listed(KeysOf(inside), rows[k].key) {
      var n :| 0 <= n < |inside| && KeysOf(inside)[n] == rows[k].key;
    }
  }

  /** When one interval divides another, a coarse bucket is exactly the merge of the fine buckets inside it: of their
      counts, minima, maxima and means. */
  lemma {:induction false} CoarseBucketMergesFine(rows: seq<Obs>, interval: int, c: int, local: bool,
                                                  fine: seq<Group>, coarse: seq<Group>, n: int)
    requires interval > 0 && c > 0 && interval * c > 0 && 0 <= n < |coarse|
    requires Groups(PythonKeys(rows, interval, local), fine) && Groups(PythonKeys(rows, interval * c, local), coarse)
    ensures var inside := StatsList(Inside(fine, c, coarse[n].key));
            inside != [] && TotalCount(inside) > 0 && coarse[n].stats == Merged(inside)
  {
    var keyed := PythonKeys(rows, interval, local);
    CoarserKeys(rows, interval, c, local);
    assert Summarizes(Members(Coarsen(keyed, c), coarse[n].key), coarse[n].stats);
    MembersMergeFine(keyed, c, fine, coarse[n].key, coarse[n].stats);
  }

  lemma {:induction false} MembersMergeFine(keyed: seq<Keyed>, c: int, fine: seq<Group>, key: int, stats: Stats)
    requires c > 0 && Groups(keyed, fine) && Summarizes(Members(Coarsen(keyed, c), key), stats)
    ensures var inside := StatsList(Inside(fine, c, key));
            inside != [] && TotalCount(inside) > 0 && stats == Merged(inside)
  {
    var inside := Inside(fine, c, key);
    var keys := KeysOf(inside);
    InsideIsThose(fine, c, key);
    forall k | 0 <= k < |keyed| ensures Listed(keys, keyed[k].key) <==> keyed[k].key / c == key {
      FineKeysInside(keyed, fine, c, key, k);
    }
    SelectIsCoarseMembers(keyed, c, key, keys);
    GatherIsSelect(keyed, keys);
    SameBagSameStats(Select(keyed, keys), Gather(keyed, keys));
    assert inside == [] ==> Gather(keyed, keys) == [];
    forall m | 0 <= m < |inside| ensures Summarizes(Members(keyed, inside[m].key), inside[m].stats) {
      var k :| 0 <= k < |fine| && fine[k] == inside[m];
    }
    StatsOfGroups(keyed, inside);
  }

  ghost predicate HasGroup(groups: seq<Group>, key: int) {
    exists n :: 0 <= n < |groups| && groups[n].key == key
  }

  /** Some finer group lies in the coarser interval `key`. */
  ghost predicate HasGroupInside(groups: seq<Group>, c: int, key: int)
    requires c > 0
  {
    exists m :: 0 <= m < |groups| && groups[m].key / c == key
  }

  lemma GroupsAreOfOccurringKeys(rows: seq<Keyed>, groups: seq<Group>, key: int)
    requires Groups(rows, groups)
    ensures HasGroup(groups, key) <==> Occurs(rows, key)
  {
    OccursMeansMembers(rows, key);
    if HasGroup(groups, key) {
      var n :| 0 <= n < |groups| && groups[n].key == key;
      assert Summarizes(Members(rows, groups[n].key), groups[n].stats);
    }
  }

  lemma QuotientsOccur(rows: seq<Keyed>, groups: seq<Group>, c: int, key: int)
    requires c > 0 && Groups(rows, groups)
    ensures Occurs(Coarsen(rows, c), key) <==> HasGroupInside(groups, c, key)
  {
    if Occurs(Coarsen(rows, c), key) {
      var k :| 0 <= k < |rows| && Coarsen(rows, c)[k].key == key;
      assert Occurs(rows, rows[k].key);
      var m :| 0 <= m < |groups| && groups[m].key == rows[k].key;
      assert groups[m].key / c == key;
    }
    if HasGroupInside(groups, c, key) {
      var m :| 0 <= m < |groups| && groups[m].key / c == key;
      assert HasGroup(groups, groups[m].key);
      GroupsAreOfOccurringKeys(rows, groups, groups[m].key);
      var k :| 0 <= k < |rows| && rows[k].key == groups[m].key;
      assert Coarsen(rows, c)[k].key == key;
    }
  }

  /** The coarse buckets are exactly those some fine bucket lies in. */
  lemma CoarseKeysAreTheQuotients(rows: seq<Obs>, interval: int, c: int, local: bool, fine: seq<Group>, coarse: seq<Group>, key: int)
    requires interval > 0 && c > 0 && interval * c > 0
    requires Groups(PythonKeys(rows, interval, local), fine) && Groups(PythonKeys(rows, interval * c, local), coarse)
    ensures HasGroup(coarse, key) <==> HasGroupInside(fine, c, key)
  {
    CoarserKeys(rows, interval, c, local);
    GroupsAreOfOccurringKeys(PythonKeys(rows, interval * c, local), coarse, key);
    QuotientsOccur(PythonKeys(rows, interval, local), fine, c, key);
  }
}
