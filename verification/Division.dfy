/** Integer division as Python and SQLite do it, and the facts about it the bucket indices rest on. */
module Division {
  /** SQLite's integer division, which truncates toward zero. Python's `//` is Dafny's `/` for a positive divisor. */
  function TruncatedQuotient(x: int, d: int): int
    requires d > 0
  {
    if x >= 0 then x / d else -((-x) / d)
  }

  lemma {:induction false} FloorBounds(n: nat, d: int)
    requires d > 0
    ensures 0 <= (n / d) * d <= n < (n / d) * d + d
  {
    var m := (n / d) * d;
    assert n == m + n % d;
  }

  lemma NegatedProduct(k: int, d: int)
    ensures (-k) * d == -(k * d)
  {
  }

  /** Toward zero: the multiple found lies between zero and the operand, less than one divisor away from it. */
  lemma {:induction false} QuotientIsTruncated(x: int, d: int)
    requires d > 0
    ensures var m := TruncatedQuotient(x, d) * d;
            (x >= 0 ==> 0 <= m <= x < m + d) && (x <= 0 ==> m - d < x <= m <= 0)
  {
    if x >= 0 {
      FloorBounds(x, d);
    } else {
      FloorBounds(-x, d);
      NegatedProduct((-x) / d, d);
    }
  }

  lemma {:induction false} StepUp(p: int, q: int, d: int)
    requires p < q && d > 0
    ensures p * d + d <= q * d
  {
    var k := q - p - 1;
    assert k * d >= 0;
    assert q == p + 1 + k;
    assert q * d == p * d + d + k * d;
  }

  /** The quotient is pinned by its two bounds. */
  lemma {:induction false} FloorIs(x: int, d: int, q: int)
    requires d > 0 && q * d <= x < q * d + d
    ensures x / d == q && x % d == x - q * d
  {
    var p, r := x / d, x % d;
    assert x == p * d + r && 0 <= r < d;
    if p > q {
      StepUp(q, p, d);
    } else if p < q {
      StepUp(p, q, d);
    }
  }

  lemma ProductPositive(a: int, c: int)
    requires a > 0 && c > 0
    ensures a * c > 0
  {
  }

  /** Dividing in two steps is dividing once. */
  lemma {:induction false} FloorOfFloor(x: int, a: int, c: int)
    requires a > 0 && c > 0
    ensures a * c > 0 && (x / a) / c == x / (a * c)
  {
    var q, r := x / a, x % a;
    var j, s := q / c, q % c;
    ProductPositive(a, c);
    assert x == q * a + r;
    assert q * a == j * (a * c) + s * a by {
      assert q == j * c + s;
      assert (j * c + s) * a == j * c * a + s * a;
      assert j * c * a == j * (a * c);
    }
    assert 0 <= s * a;
    assert s * a + a <= a * c by {
      StepUp(s, c, a);
    }
    FloorIs(x, a * c, j);
  }

  /** The two divisions part on negative operands, except on an exact multiple. */
  lemma {:induction false} DivisionsAgree(x: int, d: int)
    requires d > 0
    ensures TruncatedQuotient(x, d) == x / d <==> x >= 0 || x % d == 0
  {
    if x < 0 {
      var p, r := (-x) / d, (-x) % d;
      assert -x == p * d + r;
      if r == 0 {
        FloorIs(x, d, -p);
      } else {
        assert (-p - 1) * d == -(p * d) - d;
        FloorIs(x, d, -p - 1);
      }
    }
  }

  /** The `n`th multiple of `step` lands on a multiple of `unit`. */
  predicate Multiple(n: int, step: int, unit: int)
    requires unit > 0
  {
    (n * step) % unit == 0
  }

  lemma {:induction false} MultipleOfMultiple(n: int, step: int, unit: int)
    requires unit > 0 && step % unit == 0
    ensures Multiple(n, step, unit)
  {
    var k := step / unit;
    assert n * step == (n * k) * unit by {
      assert step == k * unit;
    }
    FloorIs(n * step, unit, n * k);
  }
}
