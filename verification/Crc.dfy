/** The Modbus RTU CRC-16: the register, the trailer, and what a valid frame is
    (section 6.2.2 of MODBUS over Serial Line Specification and Implementation Guide V1.02). */
module Crc {
  import opened BitRegister
  import opened Division

  type byte = b: int | 0 <= b < 256
  type word = w: int | 0 <= w < 0x1_0000

  const INITIAL: word := 0xFFFF
  const GENERATOR: word := 0xA001

  // ----- bitwise operators on non-negative integers -----

  function Pow2(n: nat): (p: nat)
    ensures p > 0
  {
    if n == 0 then 1 else 2 * Pow2(n - 1)
  }

  /** `a ^ b` over the `n` low bits. */
  function XorBits(a: nat, b: nat, n: nat): (c: nat)
    ensures c < Pow2(n)
  {
    if n == 0 then 0
    else (if a % 2 == b % 2 then 0 else 1) + 2 * XorBits(a / 2, b / 2, n - 1)
  }

  /** `a ^ b` on sixteen-bit words. */
  function Xor16(a: word, b: word): word {
    SixteenBits();
    XorBits(a, b, 16)
  }

  lemma EightBits()
    ensures Pow2(8) == 0x100
  {
    assert Pow2(4) == 16;
  }

  lemma SixteenBits()
    ensures Pow2(16) == 0x1_0000
  {
    EightBits();
    assert Pow2(12) == 0x1000;
  }

  /** The `n` low bits of a number, least significant first. */
  function LowBits(w: nat, n: nat): (bits: seq<bool>)
    ensures |bits| == n
  {
    if n == 0 then [] else [w % 2 == 1] + LowBits(w / 2, n - 1)
  }

  // ----- the register -----

  /** One bit: `crc >> 1`, with the generator added when a one was shifted out. */
  function ShiftOnce(c: word): word {
    if c % 2 == 1 then Xor16(c / 2, GENERATOR) else c / 2
  }

  function ShiftMany(c: word, n: nat): word {
    if n == 0 then c else ShiftOnce(ShiftMany(c, n - 1))
  }

  function OfByte(c: word, b: byte): word {
    ShiftMany(Xor16(c, b), 8)
  }

  /** The register after a whole frame. */
  function Register(c: word, frame: seq<byte>): word {
    if frame == [] then c else OfByte(Register(c, frame[..|frame| - 1]), frame[|frame| - 1])
  }

  method CalculateCrc(frame: seq<byte>) returns (crc: word)
    ensures crc == Register(INITIAL, frame)
  {
    crc := 0xFFFF;
    for i := 0 to |frame|
      invariant crc == Register(INITIAL, frame[..i])
    {
      crc := Xor16(crc, frame[i]);
      ghost var entered := crc;
      for k := 0 to 8
        invariant crc == ShiftMany(entered, k)
      {
        if crc % 2 == 1 {
          crc := Xor16(crc / 2, 0xA001);
        } else {
          crc := crc / 2;
        }
      }
      assert frame[..i + 1][..i] == frame[..i];
    }
    assert frame[..|frame|] == frame;
  }

  function LittleEndian(lo: byte, hi: byte): word {
    lo + 256 * hi
  }

  function BigEndian(hi: byte, lo: byte): word {
    256 * hi + lo
  }

  /** A word in little-endian order: the order the trailer goes out in. */
  function Trailer(w: word): (bytes: seq<byte>)
    ensures |bytes| == 2
  {
    [w % 256, w / 256]
  }

  function AppendCrc(body: seq<byte>): (frame: seq<byte>)
    ensures |frame| == |body| + 2
  {
    body + Trailer(Register(INITIAL, body))
  }

  /** The check a received frame must pass; shorter than three bytes, it never does. */
  predicate ValidCrc(frame: seq<byte>) {
    |frame| >= 3
    && LittleEndian(frame[|frame| - 2], frame[|frame| - 1]) == Register(INITIAL, frame[..|frame| - 2])
  }

  /** Appending the CRC is the only way to extend a body by two bytes into a valid frame. */
  lemma OnlyItsOwnTrailer(body: seq<byte>, trailer: seq<byte>)
    requires body != [] && |trailer| == 2
    ensures ValidCrc(body + trailer) <==> body + trailer == AppendCrc(body)
  {
    var frame := body + trailer;
    assert frame[..|frame| - 2] == body;
    assert frame[|body|] == trailer[0] && frame[|body| + 1] == trailer[1];
    var own := AppendCrc(body);
    assert own[|body|] == Trailer(Register(INITIAL, body))[0] && own[|body| + 1] == Trailer(Register(INITIAL, body))[1];
    if ValidCrc(frame) {
      assert trailer == Trailer(Register(INITIAL, body));
    }
  }

  // ----- the register and its bits -----

  function BitsOfWord(w: word): Bits16 {
    LowBits(w, 16)
  }

  /** The order a byte's bits go out in: least significant first. */
  function BitsOfByte(b: byte): (bits: seq<bool>)
    ensures |bits| == 8
  {
    LowBits(b, 8)
  }

  /** A frame as transmitted. */
  function BitsOf(frame: seq<byte>): (bits: seq<bool>)
    ensures |bits| == 8 * |frame|
  {
    if frame == [] then [] else BitsOf(frame[..|frame| - 1]) + BitsOfByte(frame[|frame| - 1])
  }

  lemma {:induction false} LowBitsAt(w: nat, n: nat, j: nat)
    requires j < n
    ensures LowBits(w, n)[j] == ((w / Pow2(j)) % 2 == 1)
  {
    if j > 0 {
      LowBitsAt(w / 2, n - 1, j - 1);
      FloorOfFloor(w, 2, Pow2(j - 1));
    }
  }

  lemma {:induction false} BitsOfXor(a: nat, b: nat, n: nat)
    ensures LowBits(XorBits(a, b, n), n) == Xor(LowBits(a, n), LowBits(b, n))
  {
    if n > 0 {
      BitsOfXor(a / 2, b / 2, n - 1);
      var c, d := XorBits(a, b, n), XorBits(a / 2, b / 2, n - 1);
      assert c / 2 == d;
    }
  }

  /** Bits determine the number. */
  lemma {:induction false} SameBits(a: nat, b: nat, n: nat)
    requires a < Pow2(n) && b < Pow2(n)
    requires LowBits(a, n) == LowBits(b, n)
    ensures a == b
  {
    if n > 0 {
      assert LowBits(a, n)[0] == LowBits(b, n)[0];
      assert LowBits(a, n)[1..] == LowBits(a / 2, n - 1) && LowBits(b, n)[1..] == LowBits(b / 2, n - 1);
      SameBits(a / 2, b / 2, n - 1);
    }
  }

  lemma {:induction false} HalveSum(a: nat, b: nat, p: nat)
    ensures var w := a + 2 * p * b; w % 2 == a % 2 && w / 2 == a / 2 + p * b
  {
    var q := p * b;
    assert 2 * p * b == 2 * q;
  }

  lemma FirstBit(w: nat, n: nat)
    requires n > 0
    ensures LowBits(w, n) == [w % 2 == 1] + LowBits(w / 2, n - 1)
  {
  }

  /** A number laid above `m` bits of another: its bits follow. */
  lemma {:induction false} BitsOfSum(a: nat, b: nat, m: nat, n: nat)
    requires a < Pow2(m)
    ensures LowBits(a + Pow2(m) * b, m + n) == LowBits(a, m) + LowBits(b, n)
  {
    if m > 0 {
      var w := a + Pow2(m) * b;
      HalveSum(a, b, Pow2(m - 1));
      BitsOfSum(a / 2, b, m - 1, n);
      FirstBit(w, m + n);
      FirstBit(a, m);
      assert LowBits(w, m + n) == [a % 2 == 1] + (LowBits(a / 2, m - 1) + LowBits(b, n));
    }
  }

  lemma {:induction false} BitsOfZero(n: nat)
    ensures LowBits(0, n) == Zeros(n)
  {
    if n > 0 {
      BitsOfZero(n - 1);
    }
  }

  lemma ByteAsWord(b: byte)
    ensures BitsOfWord(b) == BitsOfByte(b) + Zeros(8)
  {
    EightBits();
    BitsOfSum(b, 0, 8, 8);
    BitsOfZero(8);
  }

  lemma TrailerBits(lo: byte, hi: byte)
    ensures BitsOfWord(LittleEndian(lo, hi)) == BitsOfByte(lo) + BitsOfByte(hi)
  {
    EightBits();
    BitsOfSum(lo, hi, 8, 8);
  }

  lemma TwelveBits()
    ensures Pow2(12) == 0x1000
  {
    EightBits();
  }

  lemma {:induction false} RaisedBits(v: nat, m: nat, n: nat)
    ensures LowBits(Pow2(m) * v, m + n) == Zeros(m) + LowBits(v, n)
  {
    BitsOfSum(0, v, m, n);
    BitsOfZero(m);
  }

  lemma {:induction false} UpperGeneratorBits()
    ensures LowBits(0x5000, 15) == Zeros(12) + [true, false, true]
  {
    TwelveBits();
    var five: nat, twelve: nat, three: nat := 5, 12, 3;
    RaisedBits(five, twelve, three);
    OneAndFive();
  }

  lemma GeneratorBits()
    ensures BitsOfWord(GENERATOR) == POLYNOMIAL
  {
    BitsOfSum(1, 0x5000, 1, 15);
    OneAndFive();
    UpperGeneratorBits();
  }

  lemma OneAndFive()
    ensures LowBits(1, 1) == [true] && LowBits(5, 3) == [true, false, true]
  {
  }

  /** Halving drops the low bit. */
  lemma HalfBits(c: word)
    ensures BitsOfWord(c / 2) == BitsOfWord(c)[1..] + [false]
  {
    SixteenBits();
    assert Pow2(16) == 2 * Pow2(15);
    BitsOfSum(c / 2, 0, 15, 1);
    assert LowBits(0, 1) == [false];
    assert LowBits(c, 16)[1..] == LowBits(c / 2, 15);
  }

  lemma ShiftOnceIsStep(c: word)
    ensures BitsOfWord(ShiftOnce(c)) == Step(BitsOfWord(c))
  {
    HalfBits(c);
    StepAsXor(BitsOfWord(c));
    GeneratorBits();
    BitsOfXor(c / 2, GENERATOR, 16);
    assert BitsOfWord(c)[0] == (c % 2 == 1);
  }

  lemma {:induction false} ShiftManyIsStepN(c: word, n: nat)
    ensures BitsOfWord(ShiftMany(c, n)) == StepN(BitsOfWord(c), n)
  {
    if n > 0 {
      ShiftManyIsStepN(c, n - 1);
      ShiftOnceIsStep(ShiftMany(c, n - 1));
    }
  }

  lemma {:induction false} ByteIsItsBits(c: word, b: byte)
    ensures BitsOfWord(OfByte(c, b)) == FeedAll(BitsOfWord(c), BitsOfByte(b))
  {
    var v := BitsOfWord(b);
    ByteAsWord(b);
    BitsOfXor(c, b, 16);
    ShiftManyIsStepN(Xor16(c, b), 8);
    FedWord(BitsOfWord(c), v, 8);
    assert v[..8] == BitsOfByte(b);
  }

  /** The byte-wise CRC is the bit-serial register fed each byte least significant bit first. */
  lemma {:induction false} RegisterIsBitSerial(c: word, frame: seq<byte>)
    ensures BitsOfWord(Register(c, frame)) == FeedAll(BitsOfWord(c), BitsOf(frame))
  {
    if frame != [] {
      var n := |frame| - 1;
      RegisterIsBitSerial(c, frame[..n]);
      ByteIsItsBits(Register(c, frame[..n]), frame[n]);
      FeedConcat(BitsOfWord(c), BitsOf(frame[..n]), BitsOfByte(frame[n]));
    }
  }

  lemma ZeroBitsMeanZero(w: word)
    ensures BitsOfWord(w) == ZERO <==> w == 0
  {
    SixteenBits();
    BitsOfZero(16);
    if BitsOfWord(w) == ZERO {
      SameBits(w, 0, 16);
    }
  }

  lemma SameWord(v: word, w: word)
    ensures BitsOfWord(v) == BitsOfWord(w) <==> v == w
  {
    SixteenBits();
    if BitsOfWord(v) == BitsOfWord(w) {
      SameBits(v, w, 16);
    }
  }

  /** Two bytes clear the register exactly when they spell it out, low byte first. */
  lemma TwoBytesClear(r: word, lo: byte, hi: byte)
    ensures OfByte(OfByte(r, lo), hi) == 0 <==> LittleEndian(lo, hi) == r
  {
    var t := LittleEndian(lo, hi);
    ByteIsItsBits(r, lo);
    ByteIsItsBits(OfByte(r, lo), hi);
    FeedConcat(BitsOfWord(r), BitsOfByte(lo), BitsOfByte(hi));
    TrailerBits(lo, hi);
    TrailerClearsRegister(BitsOfWord(r), BitsOfWord(t));
    ZeroBitsMeanZero(OfByte(OfByte(r, lo), hi));
    SameWord(r, t);
  }

  /** The whole-frame test: trailer included, a valid frame and no other leaves nothing in the register. */
  lemma {:induction false} ValidMeansZeroRegister(frame: seq<byte>)
    requires |frame| >= 3
    ensures ValidCrc(frame) <==> Register(INITIAL, frame) == 0
    ensures ValidCrc(frame) <==> FeedAll(BitsOfWord(INITIAL), BitsOf(frame)) == ZERO
  {
    var n := |frame| - 2;
    LastTwoBytes(INITIAL, frame);
    TwoBytesClear(Register(INITIAL, frame[..n]), frame[n], frame[n + 1]);
    ZeroRegisterBits(frame);
  }

  lemma {:induction false} LastTwoBytes(c: word, frame: seq<byte>)
    requires |frame| >= 2
    ensures var n := |frame| - 2;
            Register(c, frame) == OfByte(OfByte(Register(c, frame[..n]), frame[n]), frame[n + 1])
  {
    var init := frame[..|frame| - 1];
    assert init[..|init| - 1] == frame[..|frame| - 2];
    assert Register(c, init) == OfByte(Register(c, init[..|init| - 1]), init[|init| - 1]);
  }

  lemma {:induction false} ZeroRegisterBits(frame: seq<byte>)
    ensures Register(INITIAL, frame) == 0 <==> FeedAll(BitsOfWord(INITIAL), BitsOf(frame)) == ZERO
  {
    RegisterIsBitSerial(INITIAL, frame);
    ZeroBitsMeanZero(Register(INITIAL, frame));
  }

  // ----- the register in plain numbers -----

  /** One bit: halve, and when a one was shifted out, raise bit 15 and flip bits 13 and 0. */
  function HalvedAndFlipped(c: nat): nat {
    var h := c / 2;
    if c % 2 == 0 then h
    else h + 0x8000 + (if (h / 0x2000) % 2 == 0 then 0x2000 else -0x2000) + (if h % 2 == 0 then 1 else -1)
  }

  function HalvedTimes(c: nat, n: nat): nat {
    if n == 0 then c else HalvedAndFlipped(HalvedTimes(c, n - 1))
  }

  /** One level of `XorBits` on two numbers of which only the first has a low bit. */
  lemma XorStep(low: nat, b: nat, v: nat, p: nat, n: nat)
    ensures XorBits(low + 2 * p * b, 2 * p * v, n + 1) == low % 2 + 2 * XorBits(low / 2 + p * b, p * v, n)
  {
    HalveSum(low, b, p);
    HalveSum(0, v, p);
  }

  lemma Reassembled(low: nat, p: nat, x: nat)
    ensures low % 2 + 2 * (low / 2 + p * x) == low + (2 * p) * x
  {
    assert 2 * (p * x) == (2 * p) * x;
  }

  /** Two numbers whose `m` low bits are `low` and nothing: only what stands above is added. */
  lemma {:induction false} XorAbove(low: nat, b: nat, v: nat, m: nat, n: nat)
    requires low < Pow2(m)
    ensures XorBits(low + Pow2(m) * b, Pow2(m) * v, m + n) == low + Pow2(m) * XorBits(b, v, n)
  {
    if m > 0 {
      var p := Pow2(m - 1);
      XorAbove(low / 2, b, v, m - 1, n);
      XorStep(low, b, v, p, m - 1 + n);
      Reassembled(low, p, XorBits(b, v, n));
    }
  }

  lemma {:induction false} SmallXor(u: nat)
    requires u < 4
    ensures XorBits(u, 5, 3) == if u % 2 == 0 then u + 5 else u + 3
  {
    assert u == 0 || u == 1 || u == 2 || u == 3;
  }

  /** The generator above its low bit: of fifteen bits, the twelfth is flipped and the top one raised. */
  lemma {:induction false} XorUpperGenerator(g: nat, upper: nat, n: nat)
    requires g < 0x4000 && upper == 0x5000 && n == 15
    ensures XorBits(g, upper, n) == g + 0x4000 + if (g / 0x1000) % 2 == 0 then 0x1000 else -0x1000
  {
    TwelveBits();
    var low, top := g % 0x1000, g / 0x1000;
    var five: nat, twelve: nat, three: nat := 5, 12, 3;
    assert g == low + 0x1000 * top;
    XorAbove(low, top, five, twelve, three);
    SmallXor(top);
  }

  lemma FirstXor(a: nat, b: nat, n: nat)
    requires n > 0
    ensures XorBits(a, b, n) == (if a % 2 == b % 2 then 0 else 1) + 2 * XorBits(a / 2, b / 2, n - 1)
  {
  }

  lemma {:induction false} ShiftOnceInNumbers(c: word)
    ensures ShiftOnce(c) == HalvedAndFlipped(c)
  {
    var h, generator: nat, n: nat := c / 2, GENERATOR, 16;
    XorUpperGenerator(h / 2, generator / 2, n - 1);
    FirstXor(h, generator, n);
    SixteenBits();
    assert Xor16(h, GENERATOR) == XorBits(h, generator, n);
  }

  lemma {:induction false} ShiftsInNumbers(c: word, n: nat)
    ensures ShiftMany(c, n) == HalvedTimes(c, n)
  {
    if n > 0 {
      ShiftsInNumbers(c, n - 1);
      ShiftOnceInNumbers(ShiftMany(c, n - 1));
    }
  }

  predicate BitSet(w: nat, k: nat) {
    (w / Pow2(k)) % 2 == 1
  }

  lemma XorBitAt(a: word, b: word, k: nat)
    requires k < 16
    ensures BitSet(Xor16(a, b), k) == (BitSet(a, k) != BitSet(b, k))
  {
    BitsOfXor(a, b, 16);
    LowBitsAt(Xor16(a, b), 16, k);
    LowBitsAt(a, 16, k);
    LowBitsAt(b, 16, k);
  }

  /** The register in numbers: all ones before the first byte, and for each byte its bits are flipped in, then eight shifts. */
  lemma {:induction false} RegisterInNumbers(frame: seq<byte>, b: byte) returns (entered: word)
    ensures Register(INITIAL, []) == 0xFFFF
    ensures forall k :: 0 <= k < 16 ==> BitSet(entered, k) == (BitSet(Register(INITIAL, frame), k) != BitSet(b, k))
    ensures Register(INITIAL, frame + [b]) == HalvedTimes(entered, 8)
  {
    var c := Register(INITIAL, frame);
    entered := Xor16(c, b);
    forall k | 0 <= k < 16 ensures BitSet(entered, k) == (BitSet(c, k) != BitSet(b, k)) {
      XorBitAt(c, b, k);
    }
    ShiftsInNumbers(entered, 8);
    assert (frame + [b])[..|frame|] == frame;
  }
}
