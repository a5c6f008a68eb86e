/** The CRC shift register as sixteen bits over GF(2), fed one transmitted bit at a time. */
module BitRegister {
  /** Sixteen bits, least significant first. */
  type Bits16 = s: seq<bool> | |s| == 16 witness [
    false, false, false, false, false, false, false, false, false, false, false, false, false, false, false, false]

  /** 0xA001: bits 0, 13 and 15. */
  const POLYNOMIAL: Bits16 := [true] + (Zeros(12) + [true, false, true])

  const ZERO: Bits16 := Zeros(16)

  function Xor(a: seq<bool>, b: seq<bool>): (c: seq<bool>)
    requires |a| == |b|
    ensures |c| == |a| && forall i :: 0 <= i < |a| ==> c[i] == (a[i] != b[i])
  {
    seq(|a|, i requires 0 <= i < |a| => a[i] != b[i])
  }

  function Zeros(n: nat): (z: seq<bool>)
    ensures |z| == n && forall i :: 0 <= i < n ==> !z[i]
  {
    seq(n, i => false)
  }

  /** Shift down one place; if a one fell out, add the polynomial. */
  function Step(c: Bits16): (d: Bits16)
    ensures forall i :: 0 <= i < 16 ==> d[i] == ((i < 15 && c[i + 1]) != (c[0] && POLYNOMIAL[i]))
  {
    seq(16, i requires 0 <= i < 16 => (i < 15 && c[i + 1]) != (c[0] && POLYNOMIAL[i]))
  }

  function StepN(c: Bits16, n: nat): Bits16
    decreases n
  {
    if n == 0 then c else Step(StepN(c, n - 1))
  }

  /** A word whose low bit is `bit`. */
  function Unit(bit: bool): Bits16 {
    [bit] + Zeros(15)
  }

  function Feed(c: Bits16, bit: bool): Bits16 {
    Step(Xor(c, Unit(bit)))
  }

  function FeedAll(c: Bits16, bits: seq<bool>): Bits16
    decreases |bits|
  {
    if bits == [] then c else Feed(FeedAll(c, bits[..|bits| - 1]), bits[|bits| - 1])
  }

  // ----- the step is linear and loses nothing -----

  lemma StepIsLinear(a: Bits16, b: Bits16)
    ensures Step(Xor(a, b)) == Xor(Step(a), Step(b))
  {
  }

  lemma StepKeepsNonzero(c: Bits16)
    ensures Step(c) == ZERO <==> c == ZERO
  {
    var d := Step(c);
    if d == ZERO {
      assert !d[15] && !c[0];
      assert forall i :: 0 <= i < 15 ==> d[i] == c[i + 1];
      assert forall i :: 0 < i < 16 ==> c[i] == d[i - 1];
      assert c == ZERO;
    }
  }

  lemma {:induction false} StepNKeepsNonzero(c: Bits16, n: nat)
    ensures StepN(c, n) == ZERO <==> c == ZERO
  {
    if n > 0 {
      StepNKeepsNonzero(c, n - 1);
      StepKeepsNonzero(StepN(c, n - 1));
    }
  }

  lemma FeedIsLinear(a: Bits16, b: Bits16, x: bool, y: bool)
    ensures Feed(Xor(a, b), x != y) == Xor(Feed(a, x), Feed(b, y))
  {
    StepIsLinear(Xor(a, Unit(x)), Xor(b, Unit(y)));
    assert Xor(Xor(a, b), Unit(x != y)) == Xor(Xor(a, Unit(x)), Xor(b, Unit(y)));
  }

  /** Errors travel through the register on their own, whatever data they were added to. */
  lemma {:induction false} FeedAllIsLinear(a: Bits16, b: Bits16, x: seq<bool>, y: seq<bool>)
    requires |x| == |y|
    ensures FeedAll(Xor(a, b), Xor(x, y)) == Xor(FeedAll(a, x), FeedAll(b, y))
    decreases |x|
  {
    if x != [] {
      var n := |x| - 1;
      FeedAllIsLinear(a, b, x[..n], y[..n]);
      assert Xor(x, y)[..n] == Xor(x[..n], y[..n]);
      FeedIsLinear(FeedAll(a, x[..n]), FeedAll(b, y[..n]), x[n], y[n]);
    }
  }

  lemma {:induction false} FeedConcat(c: Bits16, a: seq<bool>, b: seq<bool>)
    ensures FeedAll(c, a + b) == FeedAll(FeedAll(c, a), b)
    decreases |b|
  {
    if b == [] {
      assert a + b == a;
    } else {
      var n := |b| - 1;
      FeedConcat(c, a, b[..n]);
      assert (a + b)[..|a + b| - 1] == a + b[..n];
    }
  }

  /** Feeding zeros is stepping. */
  lemma {:induction false} FeedZeros(c: Bits16, n: nat)
    ensures FeedAll(c, Zeros(n)) == StepN(c, n)
  {
    if n > 0 {
      FeedZeros(c, n - 1);
      assert Zeros(n)[..n - 1] == Zeros(n - 1);
      assert Xor(StepN(c, n - 1), Unit(false)) == StepN(c, n - 1);
    }
  }

  // ----- feeding up to sixteen bits is stepping their word -----

  function ShiftedOut(v: Bits16, n: nat): Bits16
    requires n <= 16
  {
    v[n..] + Zeros(n)
  }

  /** Whatever stands above the low bit just moves down one place. */
  lemma Peel(c: Bits16, v: Bits16)
    ensures Step(Xor(c, v)) == Xor(Feed(c, v[0]), ShiftedOut(v, 1))
  {
  }

  lemma ShiftTwice(v: Bits16, n: nat)
    requires n < 16
    ensures ShiftedOut(v, n)[0] == v[n] && ShiftedOut(ShiftedOut(v, n), 1) == ShiftedOut(v, n + 1)
  {
  }

  lemma {:induction false} PeelN(c: Bits16, v: Bits16, n: nat)
    requires n <= 16
    ensures StepN(Xor(c, v), n) == Xor(FeedAll(c, v[..n]), ShiftedOut(v, n))
  {
    if n == 0 {
      assert Xor(c, v) == Xor(c, ShiftedOut(v, 0));
    } else {
      var fed, w := FeedAll(c, v[..n - 1]), ShiftedOut(v, n - 1);
      PeelN(c, v, n - 1);
      Peel(fed, w);
      ShiftTwice(v, n - 1);
      assert FeedAll(c, v[..n]) == Feed(fed, v[n - 1]) by {
        assert v[..n][..n - 1] == v[..n - 1];
      }
    }
  }

  lemma XorZero(c: Bits16)
    ensures Xor(c, ZERO) == c && Xor(ZERO, c) == c
  {
  }

  lemma XorCancels(a: Bits16, b: Bits16)
    ensures Xor(a, b) == ZERO <==> a == b
  {
    if Xor(a, b) == ZERO {
      forall i | 0 <= i < 16 ensures a[i] == b[i] {
        assert !Xor(a, b)[i];
      }
    }
    if a == b {
      AllZeros(Xor(a, b));
    }
  }

  lemma ShiftedOutEmpty(v: Bits16, n: nat)
    requires n <= 16 && forall i :: n <= i < 16 ==> !v[i]
    ensures ShiftedOut(v, n) == ZERO
  {
    assert forall i :: 0 <= i < 16 ==> !ShiftedOut(v, n)[i];
  }

  /** Feeding a word's bits into the register is stepping their sum, once nothing of the word is left above. */
  lemma {:induction false} FedWord(c: Bits16, v: Bits16, n: nat)
    requires n <= 16 && forall i :: n <= i < 16 ==> !v[i]
    ensures FeedAll(c, v[..n]) == StepN(Xor(c, v), n)
  {
    PeelN(c, v, n);
    ShiftedOutEmpty(v, n);
    XorZero(FeedAll(c, v[..n]));
  }

  /** A trailer clears the register exactly when it equals the register. */
  lemma {:induction false} TrailerClearsRegister(r: Bits16, trailer: Bits16)
    ensures FeedAll(r, trailer) == ZERO <==> r == trailer
  {
    FedWord(r, trailer, 16);
    assert trailer[..16] == trailer;
    StepNKeepsNonzero(Xor(r, trailer), 16);
    XorCancels(r, trailer);
  }

  // ----- bursts -----

  /** Up to sixteen bits, not all zero, leave something in a clear register. */
  lemma {:induction false} ShortBurstLeavesTrace(w: seq<bool>, k: nat)
    requires |w| <= 16 && k < |w| && w[k]
    ensures FeedAll(ZERO, w) != ZERO
  {
    var n := |w|;
    var v: Bits16 := w + Zeros(16 - n);
    FedWord(ZERO, v, n);
    XorZero(v);
    assert v[..n] == w && v[k];
    StepNKeepsNonzero(v, n);
  }

  lemma AllZeros(e: seq<bool>)
    requires forall i :: 0 <= i < |e| ==> !e[i]
    ensures e == Zeros(|e|)
  {
  }

  lemma {:induction false} ZerosBefore(n: nat, e: seq<bool>)
    ensures FeedAll(ZERO, Zeros(n) + e) == FeedAll(ZERO, e)
  {
    FeedConcat(ZERO, Zeros(n), e);
    FeedZeros(ZERO, n);
    StepNKeepsNonzero(ZERO, n);
  }

  lemma {:induction false} ZerosAfter(e: seq<bool>, n: nat)
    requires FeedAll(ZERO, e) != ZERO
    ensures FeedAll(ZERO, e + Zeros(n)) != ZERO
  {
    FeedConcat(ZERO, e, Zeros(n));
    FeedZeros(FeedAll(ZERO, e), n);
    StepNKeepsNonzero(FeedAll(ZERO, e), n);
  }

  /** A disturbance between two quiet stretches leaves a trace if it leaves one by itself. */
  lemma {:induction false} QuietAround(e: seq<bool>, from: nat, to: nat)
    requires from <= to <= |e|
    requires forall i :: 0 <= i < |e| && e[i] ==> from <= i < to
    requires FeedAll(ZERO, e[from..to]) != ZERO
    ensures FeedAll(ZERO, e) != ZERO
  {
    var head, burst, tail := e[..from], e[from..to], e[to..];
    assert head == Zeros(from) by {
      forall i | 0 <= i < |head| ensures !head[i] { assert !e[i]; }
      AllZeros(head);
    }
    assert tail == Zeros(|e| - to) by {
      forall i | 0 <= i < |tail| ensures !tail[i] { assert !e[to + i]; }
      AllZeros(tail);
    }
    ZerosBefore(from, burst);
    ZerosAfter(head + burst, |e| - to);
    ThreeParts(e, from, to);
  }

  lemma ThreeParts(e: seq<bool>, from: nat, to: nat)
    requires from <= to <= |e|
    ensures e == e[..from] + e[from..to] + e[to..]
  {
  }

  /** An error confined to sixteen consecutive bits never passes unseen, wherever it falls and however long the frame. */
  lemma {:induction false} BurstLeavesTrace(e: seq<bool>, from: nat, k: nat)
    requires k < |e| && e[k]
    requires forall i :: 0 <= i < |e| && e[i] ==> from <= i < from + 16
    ensures FeedAll(ZERO, e) != ZERO
  {
    var to := if from + 16 <= |e| then from + 16 else |e|;
    assert e[from..to][k - from];
    ShortBurstLeavesTrace(e[from..to], k - from);
    QuietAround(e, from, to);
  }

  // ----- parity -----

  /** Whether an odd number of the bits are ones. */
  function Odd(bits: seq<bool>): bool {
    if bits == [] then false else Odd(bits[1..]) != bits[0]
  }

  lemma {:induction false} OddOfXor(a: seq<bool>, b: seq<bool>)
    requires |a| == |b|
    ensures Odd(Xor(a, b)) == (Odd(a) != Odd(b))
  {
    if a != [] {
      OddOfXor(a[1..], b[1..]);
      assert Xor(a, b)[1..] == Xor(a[1..], b[1..]);
    }
  }

  lemma {:induction false} OddAppend(a: seq<bool>, bit: bool)
    ensures Odd(a + [bit]) == (Odd(a) != bit)
  {
    if a != [] {
      OddAppend(a[1..], bit);
      assert (a + [bit])[1..] == a[1..] + [bit];
    }
  }

  lemma {:induction false} OddZeros(n: nat)
    ensures !Odd(Zeros(n))
  {
    if n > 0 {
      OddZeros(n - 1);
      assert Zeros(n)[1..] == Zeros(n - 1);
    }
  }

  lemma OddPolynomial()
    ensures Odd(POLYNOMIAL)
  {
    var tail: seq<bool> := [true, false, true];
    assert Odd(tail[1..][1..]) && Odd(tail[1..]) && !Odd(tail);
    ZerosPrefix(12, tail);
    assert POLYNOMIAL[1..] == Zeros(12) + tail;
  }

  lemma {:induction false} ZerosPrefix(n: nat, tail: seq<bool>)
    ensures Odd(Zeros(n) + tail) == Odd(tail)
  {
    if n == 0 {
      assert Zeros(0) + tail == tail;
    } else {
      ZerosPrefix(n - 1, tail);
      assert (Zeros(n) + tail)[1..] == Zeros(n - 1) + tail;
    }
  }

  lemma StepAsXor(c: Bits16)
    ensures var shifted := c[1..] + [false];
            Step(c) == if c[0] then Xor(shifted, POLYNOMIAL) else shifted
  {
  }

  /** The register's parity survives every step: the polynomial carries three ones for the one it replaces. */
  lemma {:induction false} StepKeepsParity(c: Bits16)
    ensures Odd(Step(c)) == Odd(c)
  {
    var shifted := c[1..] + [false];
    StepAsXor(c);
    OddAppend(c[1..], false);
    OddPolynomial();
    OddOfXor(shifted, POLYNOMIAL);
  }

  lemma {:induction false} RegisterCountsOnes(e: seq<bool>)
    ensures Odd(FeedAll(ZERO, e)) == Odd(e)
  {
    if e == [] {
      OddZeros(16);
    } else {
      var n := |e| - 1;
      var c := FeedAll(ZERO, e[..n]);
      RegisterCountsOnes(e[..n]);
      OddAppend(e[..n], e[n]);
      assert e == e[..n] + [e[n]];
      StepKeepsParity(Xor(c, Unit(e[n])));
      OddOfXor(c, Unit(e[n]));
      OddZeros(15);
      assert Unit(e[n])[1..] == Zeros(15);
    }
  }

  /** An odd number of flipped bits never passes unseen. */
  lemma {:induction false} OddErrorLeavesTrace(e: seq<bool>)
    requires Odd(e)
    ensures FeedAll(ZERO, e) != ZERO
  {
    RegisterCountsOnes(e);
    OddZeros(16);
  }
}
