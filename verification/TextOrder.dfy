/** The order of identifiers: code point by code point, as both `sorted` and SQLite's BINARY collation have it. */
module TextOrder {
  predicate Below(a: string, b: string) {
    b != [] && (a == [] || a[0] < b[0] || (a[0] == b[0] && Below(a[1..], b[1..])))
  }

  lemma {:induction false} BelowIsStrict(a: string, b: string)
    ensures Below(a, b) ==> a != b && !Below(b, a)
  {
    if a != [] && b != [] {
      BelowIsStrict(a[1..], b[1..]);
    }
  }

  lemma {:induction false} BelowIsTotal(a: string, b: string)
    ensures a == b || Below(a, b) || Below(b, a)
  {
    if a != [] && b != [] && a[0] == b[0] {
      BelowIsTotal(a[1..], b[1..]);
      assert a == [a[0]] + a[1..] && b == [b[0]] + b[1..];
    }
  }

  lemma {:induction false} BelowIsTransitive(a: string, b: string, c: string)
    requires Below(a, b) && Below(b, c)
    ensures Below(a, c)
  {
    if a != [] && a[0] == b[0] == c[0] {
      BelowIsTransitive(a[1..], b[1..], c[1..]);
    }
  }

  /** Two identifiers part after `k` common characters: the one that ends there, or has the smaller character, comes first. */
  predicate PartsAt(a: string, b: string, k: nat) {
    k <= |a| && k < |b| && a[..k] == b[..k] && (k == |a| || a[k] < b[k])
  }

  lemma PartsLater(a: string, b: string, k: nat)
    requires PartsAt(a, b, k) && k > 0
    ensures a != [] && b != [] && a[0] == b[0]
  {
    assert a[..k][0] == b[..k][0];
  }

  lemma {:induction false} PartsAtOnce(a: string, b: string)
    requires a == [] || b == [] || a[0] != b[0]
    ensures forall k: nat :: PartsAt(a, b, k) ==> k == 0
  {
    forall k: nat | PartsAt(a, b, k) ensures k == 0 {
      if k > 0 {
        PartsLater(a, b, k);
      }
    }
  }

  lemma {:induction false} BelowMeansParting(a: string, b: string)
    ensures Below(a, b) <==> exists k: nat :: PartsAt(a, b, k)
  {
    if a == [] || b == [] || a[0] != b[0] {
      PartsAtOnce(a, b);
      assert PartsAt(a, b, 0) <==> Below(a, b);
    } else {
      BelowMeansParting(a[1..], b[1..]);
      assert !PartsAt(a, b, 0);
      forall k: nat | k > 0 ensures PartsAt(a, b, k) <==> PartsAt(a[1..], b[1..], k - 1) {
        if k <= |a| && k < |b| {
          assert a[..k] == [a[0]] + a[1..][..k - 1] && b[..k] == [b[0]] + b[1..][..k - 1];
        }
      }
      if k: nat :| PartsAt(a[1..], b[1..], k) {
        var next: nat := k + 1;
        assert PartsAt(a, b, next) <==> PartsAt(a[1..], b[1..], next - 1);
      }
    }
  }

  predicate IsLeast(x: string, s: set<string>) {
    x in s && forall y :: y in s && y != x ==> Below(x, y)
  }

  lemma HasLeast(s: set<string>)
    requires s != {}
    ensures exists x :: IsLeast(x, s)
  {
    var x :| x in s;
    if s == {x} {
      assert IsLeast(x, s);
    } else {
      var rest := s - {x};
      HasLeast(rest);
      var y :| IsLeast(y, rest);
      BelowIsTotal(x, y);
      if Below(x, y) {
        forall z | z in s && z != x ensures Below(x, z) {
          if z != y {
            BelowIsTransitive(x, y, z);
          }
        }
        assert IsLeast(x, s);
      } else {
        assert IsLeast(y, s);
      }
    }
  }

  lemma LeastIsUnique(s: set<string>)
    ensures forall x, y :: IsLeast(x, s) && IsLeast(y, s) ==> x == y
  {
    forall x, y | IsLeast(x, s) && IsLeast(y, s) ensures x == y {
      BelowIsStrict(x, y);
    }
  }

  ghost predicate InIdOrder(ids: seq<string>) {
    forall i, j :: 0 <= i < j < |ids| ==> Below(ids[i], ids[j])
  }

  /** A set of identifiers in order. */
  function SortedIds(s: set<string>): (ids: seq<string>)
    ensures InIdOrder(ids) && forall x :: x in ids <==> x in s
  {
    if s == {} then []
    else
      HasLeast(s);
      LeastIsUnique(s);
      var x :| x in s && IsLeast(x, s);
      [x] + SortedIds(s - {x})
  }
}
