/** Sorting rows by a key: the one ascending arrangement of rows whose keys differ. */
module Sorting {
  ghost predicate StrictOrder<T(!new)>(below: (T, T) -> bool) {
    && (forall a, b :: below(a, b) ==> !below(b, a))
    && (forall a, b, c :: below(a, b) && below(b, c) ==> below(a, c))
  }

  ghost predicate Ascending<T>(s: seq<T>, below: (T, T) -> bool) {
    forall i, j :: 0 <= i < j < |s| ==> below(s[i], s[j])
  }

  /** No two rows have the same key. */
  ghost predicate KeysDiffer<T>(s: seq<T>, below: (T, T) -> bool) {
    forall i, j :: 0 <= i < j < |s| ==> below(s[i], s[j]) || below(s[j], s[i])
  }

  function Insert<T>(x: T, s: seq<T>, below: (T, T) -> bool): (r: seq<T>)
    ensures multiset(r) == multiset(s) + multiset{x}
    ensures |r| == |s| + 1
  {
    if s == [] || below(x, s[0]) then [x] + s
    else
      assert s == [s[0]] + s[1..];
      [s[0]] + Insert(x, s[1..], below)
  }

  function SortBy<T>(s: seq<T>, below: (T, T) -> bool): (r: seq<T>)
    ensures multiset(r) == multiset(s)
    ensures |r| == |s|
  {
    if s == [] then []
    else
      assert s == [s[0]] + s[1..];
      Insert(s[0], SortBy(s[1..], below), below)
  }

  lemma {:induction false} InsertAscends<T(!new)>(x: T, s: seq<T>, below: (T, T) -> bool)
    requires StrictOrder(below) && Ascending(s, below)
    requires forall y :: y in s ==> below(x, y) || below(y, x)
    ensures Ascending(Insert(x, s, below), below)
  {
    if s != [] && !below(x, s[0]) {
      var rest := s[1..];
      InsertAscends(x, rest, below);
      var tail := Insert(x, rest, below);
      assert below(s[0], x);
      forall y | y in tail ensures below(s[0], y) {
        assert y in multiset(tail);
        assert y == x || y in rest;
      }
      assert forall k :: 0 <= k < |tail| ==> tail[k] in tail;
    } else if s != [] {
      forall k | 0 <= k < |s| ensures below(x, s[k]) {
        assert k > 0 ==> below(s[0], s[k]);
      }
    }
  }

  lemma {:induction false} SortAscends<T(!new)>(s: seq<T>, below: (T, T) -> bool)
    requires StrictOrder(below) && KeysDiffer(s, below)
    ensures Ascending(SortBy(s, below), below)
  {
    if s != [] {
      var sorted := SortBy(s[1..], below);
      SortAscends(s[1..], below);
      forall y | y in sorted ensures below(s[0], y) || below(y, s[0]) {
        assert y in multiset(sorted);
        assert y in s[1..];
        var k :| 0 <= k < |s| - 1 && s[1..][k] == y;
        assert s[k + 1] == y;
      }
      InsertAscends(s[0], sorted, below);
    }
  }

  lemma LeastIsShared<T(!new)>(a: seq<T>, b: seq<T>, below: (T, T) -> bool)
    requires forall x, y :: below(x, y) ==> !below(y, x)
    requires Ascending(a, below) && Ascending(b, below) && a != [] && b != []
    requires a[0] in b && b[0] in a
    ensures a[0] == b[0]
  {
    assert forall k :: 0 < k < |a| ==> below(a[0], a[k]);
    assert forall k :: 0 < k < |b| ==> below(b[0], b[k]);
  }

  lemma RestOfBag<T>(s: seq<T>)
    requires s != []
    ensures multiset(s[1..]) == multiset(s) - multiset{s[0]}
  {
    assert s == [s[0]] + s[1..];
  }

  /** Rows with different keys have one ascending arrangement. */
  lemma {:induction false} AscendingIsUnique<T(!new)>(a: seq<T>, b: seq<T>, below: (T, T) -> bool)
    requires forall x, y :: below(x, y) ==> !below(y, x)
    requires Ascending(a, below) && Ascending(b, below)
    requires multiset(a) == multiset(b)
    ensures a == b
  {
    if a == [] || b == [] {
      assert |multiset(a)| == |multiset(b)|;
    } else {
      assert a[0] in multiset(b) && b[0] in multiset(a);
      LeastIsShared(a, b, below);
      RestOfBag(a);
      RestOfBag(b);
      AscendingIsUnique(a[1..], b[1..], below);
      assert a == [a[0]] + a[1..] && b == [b[0]] + b[1..];
    }
  }

  lemma GreatestIsLast<T(!new)>(s: seq<T>, below: (T, T) -> bool, x: T)
    requires StrictOrder(below) && Ascending(s, below) && x in s
    requires s[|s| - 1] == x || below(s[|s| - 1], x)
    ensures s[|s| - 1] == x
  {
    var k :| 0 <= k < |s| && s[k] == x;
    assert k < |s| - 1 ==> below(s[k], s[|s| - 1]);
  }

  // ----- sorting through a mapping that keeps the order -----

  function Mapped<T, U>(s: seq<T>, f: T -> U): (r: seq<U>)
    ensures |r| == |s|
    ensures forall k :: 0 <= k < |r| ==> r[k] == f(s[k])
  {
    seq(|s|, k requires 0 <= k < |s| => f(s[k]))
  }

  lemma MappedConcatenation<T, U>(a: seq<T>, b: seq<T>, f: T -> U)
    ensures Mapped(a + b, f) == Mapped(a, f) + Mapped(b, f)
  {
  }

  lemma MappedRest<T, U>(s: seq<T>, f: T -> U)
    requires s != []
    ensures Mapped(s, f)[1..] == Mapped(s[1..], f)
  {
  }

  ghost predicate KeepsOrder<T(!new), U>(f: T -> U, below: (T, T) -> bool, below': (U, U) -> bool) {
    forall a, b :: below(a, b) <==> below'(f(a), f(b))
  }

  lemma {:induction false} InsertFirst<T>(x: T, s: seq<T>, below: (T, T) -> bool)
    requires s == [] || below(x, s[0])
    ensures Insert(x, s, below) == [x] + s
  {
  }

  lemma {:induction false} InsertLater<T>(x: T, s: seq<T>, below: (T, T) -> bool)
    requires s != [] && !below(x, s[0])
    ensures Insert(x, s, below) == [s[0]] + Insert(x, s[1..], below)
  {
  }

  lemma {:induction false} InsertMaps<T(!new), U(!new)>(x: T, s: seq<T>, f: T -> U, below: (T, T) -> bool, below': (U, U) -> bool)
    requires KeepsOrder(f, below, below')
    ensures Mapped(Insert(x, s, below), f) == Insert(f(x), Mapped(s, f), below')
  {
    if s == [] || below(x, s[0]) {
      InsertFirst(x, s, below);
      InsertFirst(f(x), Mapped(s, f), below');
      MappedConcatenation([x], s, f);
    } else {
      InsertMaps(x, s[1..], f, below, below');
      InsertLater(x, s, below);
      InsertLater(f(x), Mapped(s, f), below');
      MappedRest(s, f);
      MappedConcatenation([s[0]], Insert(x, s[1..], below), f);
    }
  }

  /** Sorting rows and mapping them is mapping them and sorting what they became. */
  lemma {:induction false} SortMaps<T(!new), U(!new)>(s: seq<T>, f: T -> U, below: (T, T) -> bool, below': (U, U) -> bool)
    requires KeepsOrder(f, below, below')
    ensures Mapped(SortBy(s, below), f) == SortBy(Mapped(s, f), below')
  {
    if s != [] {
      SortMaps(s[1..], f, below, below');
      MappedRest(s, f);
      InsertMaps(s[0], SortBy(s[1..], below), f, below, below');
    }
  }
}
