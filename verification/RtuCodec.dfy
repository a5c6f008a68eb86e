/** Modbus RTU frames and payloads: building requests, reading words and bits
    (sections 6.1 to 6.5 of MODBUS Application Protocol Specification V1.1b3). */
module RtuCodec {
  import opened Basics
  import opened BitRegister
  import opened Crc
  import opened Division

  // ----- frames -----

  /** A read request: function, start address and quantity, high bytes first. */
  function ReadFrame(unit: byte, code: byte, address: word, quantity: word): (frame: seq<byte>)
    ensures |frame| == 8
  {
    AppendCrc([unit, code, address / 256, address % 256, quantity / 256, quantity % 256])
  }

  function CoilValue(closed: bool): word {
    if closed then 0xFF00 else 0x0000
  }

  const WRITE_SINGLE_COIL: byte := 0x05

  function WriteCoilFrame(unit: byte, address: word, closed: bool): (frame: seq<byte>)
    ensures |frame| == 8
  {
    var value := CoilValue(closed);
    AppendCrc([unit, WRITE_SINGLE_COIL, address / 256, address % 256, value / 256, value % 256])
  }

  /** A normal answer to a read: unit, function, byte count, data, CRC. */
  function ReplyFrame(unit: byte, code: byte, payload: seq<byte>): (frame: seq<byte>)
    requires |payload| < 256
    ensures |frame| == |payload| + 5
  {
    AppendCrc([unit, code, |payload|] + payload)
  }

  /** An exception answer: the function with its high bit set, and the exception code. */
  function ExceptionFrame(unit: byte, code: byte, exception: byte): (frame: seq<byte>)
    requires code < 0x80
    ensures |frame| == 5
  {
    AppendCrc([unit, code + 0x80, exception])
  }

  // ----- the frames, byte by byte -----

  /** The last two bytes are the CRC of the rest, low byte first. */
  predicate Sealed(frame: seq<byte>) {
    && |frame| >= 3
    && frame[|frame| - 2] + 256 * (frame[|frame| - 1] as int) == Register(INITIAL, frame[..|frame| - 2])
    && ValidCrc(frame)
  }

  /** A request of eight bytes: unit, function, two sixteen-bit fields with their high bytes first, CRC. */
  predicate IsRequest(frame: seq<byte>, unit: byte, code: byte, first: word, second: word) {
    && |frame| == 8
    && frame[0] == unit && frame[1] == code
    && 256 * (frame[2] as int) + frame[3] == first
    && 256 * (frame[4] as int) + frame[5] == second
    && Sealed(frame)
  }

  /** The order to one relay: function 5, its address, and 0xFF00 to close it or 0x0000 to open it. */
  predicate IsCoilOrder(frame: seq<byte>, unit: byte, address: word, closed: bool) {
    && |frame| == 8
    && frame[0] == unit && frame[1] == 5
    && 256 * (frame[2] as int) + frame[3] == address
    && frame[4] == (if closed then 0xFF else 0x00) && frame[5] == 0x00
    && Sealed(frame)
  }

  lemma AppendedIsSealed(body: seq<byte>)
    requires body != []
    ensures AppendCrc(body)[..|body|] == body && Sealed(AppendCrc(body))
  {
    OnlyItsOwnTrailer(body, Trailer(Register(INITIAL, body)));
  }

  lemma ReadFrameSpelled(unit: byte, code: byte, address: word, quantity: word)
    ensures IsRequest(ReadFrame(unit, code, address, quantity), unit, code, address, quantity)
  {
    AppendedIsSealed([unit, code, address / 256, address % 256, quantity / 256, quantity % 256]);
  }

  lemma WriteCoilFrameSpelled(unit: byte, address: word, closed: bool)
    ensures IsCoilOrder(WriteCoilFrame(unit, address, closed), unit, address, closed)
  {
    ReadFrameSpelled(unit, WRITE_SINGLE_COIL, address, CoilValue(closed));
  }

  lemma ReplyFrameSpelled(unit: byte, code: byte, payload: seq<byte>)
    requires |payload| < 256
    ensures var frame := ReplyFrame(unit, code, payload);
            && frame[0] == unit && frame[1] == code && frame[2] == |payload|
            && frame[3..|payload| + 3] == payload && Sealed(frame)
  {
    var body := [unit, code, |payload|] + payload;
    AppendedIsSealed(body);
    assert body[3..] == payload;
  }

  lemma SameBody(a: seq<byte>, b: seq<byte>)
    requires AppendCrc(a) == AppendCrc(b)
    ensures a == b
  {
    assert |a| == |b|;
    assert a == AppendCrc(a)[..|a|] == AppendCrc(b)[..|b|] == b;
  }

  /** No two requests share a frame, so an answer that echoes one confirms that one. */
  lemma ReadFrameIsInjective(unit: byte, code: byte, address: word, quantity: word,
                             unit': byte, code': byte, address': word, quantity': word)
    requires ReadFrame(unit, code, address, quantity) == ReadFrame(unit', code', address', quantity')
    ensures unit == unit' && code == code' && address == address' && quantity == quantity'
  {
    var a := [unit, code, address / 256, address % 256, quantity / 256, quantity % 256];
    var b := [unit', code', address' / 256, address' % 256, quantity' / 256, quantity' % 256];
    SameBody(a, b);
    assert a[0] == b[0] && a[1] == b[1] && a[2] == b[2] && a[3] == b[3] && a[4] == b[4] && a[5] == b[5];
  }

  lemma WriteCoilFrameIsInjective(unit: byte, address: word, closed: bool, unit': byte, address': word, closed': bool)
    requires WriteCoilFrame(unit, address, closed) == WriteCoilFrame(unit', address', closed')
    ensures unit == unit' && address == address' && closed == closed'
  {
    ReadFrameIsInjective(unit, WRITE_SINGLE_COIL, address, CoilValue(closed), unit', WRITE_SINGLE_COIL, address', CoilValue(closed'));
  }

  // ----- register words -----

  function WordsFromBytes(data: seq<byte>): (words: seq<word>)
    requires |data| % 2 == 0
    ensures |words| == |data| / 2
  {
    if data == [] then [] else [BigEndian(data[0], data[1])] + WordsFromBytes(data[2..])
  }

  function BytesOfWords(words: seq<word>): (data: seq<byte>)
    ensures |data| == 2 * |words|
  {
    if words == [] then [] else [words[0] / 256, words[0] % 256] + BytesOfWords(words[1..])
  }

  /** Each word is two bytes, the high one first. */
  lemma {:induction false} WordAt(data: seq<byte>, k: nat)
    requires |data| % 2 == 0 && 2 * k < |data|
    ensures WordsFromBytes(data)[k] == 256 * (data[2 * k] as int) + data[2 * k + 1]
  {
    if k > 0 {
      WordAt(data[2..], k - 1);
    }
  }

  /** Words and their big-endian bytes determine each other. */
  lemma {:induction false} WordsRoundTrip(words: seq<word>)
    ensures WordsFromBytes(BytesOfWords(words)) == words
  {
    if words != [] {
      WordsRoundTrip(words[1..]);
      var data := BytesOfWords(words);
      assert data[2..] == BytesOfWords(words[1..]);
    }
  }

  lemma {:induction false} BytesRoundTrip(data: seq<byte>)
    requires |data| % 2 == 0
    ensures BytesOfWords(WordsFromBytes(data)) == data
  {
    if data != [] {
      BytesRoundTrip(data[2..]);
      var words := WordsFromBytes(data);
      assert words[1..] == WordsFromBytes(data[2..]);
      assert data == [data[0], data[1]] + data[2..];
    }
  }

  // ----- bits -----

  lemma {:induction false} BitsOfAt(payload: seq<byte>, i: nat, j: nat)
    requires i < |payload| && j < 8
    ensures 8 * i + j < |BitsOf(payload)| && BitsOf(payload)[8 * i + j] == LowBits(payload[i], 8)[j]
  {
    var n := |payload| - 1;
    if i < n {
      BitsOfAt(payload[..n], i, j);
    }
  }

  /** Bit `k` of a payload is bit `k % 8` of byte `k / 8`. */
  lemma {:induction false} PayloadBitAt(payload: seq<byte>, k: nat)
    requires k < 8 * |payload|
    ensures BitsOf(payload)[k] == BitSet(payload[k / 8], k % 8)
  {
    LowBitsAt(payload[k / 8], 8, k % 8);
    BitsOfAt(payload, k / 8, k % 8);
  }

  /** Unpack a bit payload, least significant bit first; what is past `quantity` is padding, not data. */
  method UnpackBits(payload: seq<byte>, quantity: nat) returns (bits: seq<bool>)
    requires quantity <= 8 * |payload|
    ensures bits == BitsOf(payload)[..quantity]
    ensures forall k :: 0 <= k < quantity ==> bits[k] == BitSet(payload[k / 8], k % 8)
  {
    bits := [];
    for index := 0 to quantity
      invariant bits == BitsOf(payload)[..index]
      invariant forall k :: 0 <= k < index ==> bits[k] == BitSet(payload[k / 8], k % 8)
    {
      var byte_ := payload[index / 8];
      bits := bits + [(byte_ / Pow2(index % 8)) % 2 == 1];
      PayloadBitAt(payload, index);
    }
  }

  /** The number whose low bits these are. */
  function NumberOf(bits: seq<bool>): (w: nat)
    ensures w < Pow2(|bits|)
  {
    if bits == [] then 0 else (if bits[0] then 1 else 0) + 2 * NumberOf(bits[1..])
  }

  lemma {:induction false} NumberHasThoseBits(bits: seq<bool>)
    ensures LowBits(NumberOf(bits), |bits|) == bits
  {
    if bits != [] {
      NumberHasThoseBits(bits[1..]);
      assert NumberOf(bits) / 2 == NumberOf(bits[1..]);
    }
  }

  /** Pack bits eight to a byte, least significant first, padding the last byte with zeros. */
  function PackBits(bits: seq<bool>): (payload: seq<byte>)
    ensures |payload| == (|bits| + 7) / 8
    decreases |bits|
  {
    EightBits();
    if bits == [] then []
    else if |bits| <= 8 then [NumberOf(bits + Zeros(8 - |bits|))]
    else [NumberOf(bits[..8])] + PackBits(bits[8..])
  }

  lemma Associate<T>(a: seq<T>, b: seq<T>, c: seq<T>)
    ensures (a + b) + c == a + (b + c)
  {
  }

  lemma {:induction false} BitsOfCons(b: byte, rest: seq<byte>)
    ensures BitsOf([b] + rest) == BitsOfByte(b) + BitsOf(rest)
    decreases |rest|
  {
    if rest == [] {
      assert ([b] + rest)[..0] == [];
      assert BitsOf([b] + rest) == BitsOf([]) + BitsOfByte(b);
    } else {
      var n := |rest| - 1;
      BitsOfCons(b, rest[..n]);
      assert ([b] + rest)[..n + 1] == [b] + rest[..n];
      assert ([b] + rest)[n + 1] == rest[n];
      Associate(BitsOfByte(b), BitsOf(rest[..n]), BitsOfByte(rest[n]));
    }
  }

  lemma {:induction false} PackedBits(bits: seq<bool>)
    ensures bits <= BitsOf(PackBits(bits))
    decreases |bits|
  {
    EightBits();
    if bits == [] {
    } else if |bits| <= 8 {
      NumberHasThoseBits(bits + Zeros(8 - |bits|));
      BitsOfCons(PackBits(bits)[0], []);
    } else {
      PackedBits(bits[8..]);
      NumberHasThoseBits(bits[..8]);
      BitsOfCons(NumberOf(bits[..8]), PackBits(bits[8..]));
      assert bits == bits[..8] + bits[8..];
    }
  }

  /** Packing then unpacking gives the bits back. */
  lemma {:induction false} PackRoundTrip(bits: seq<bool>)
    ensures |bits| <= 8 * |PackBits(bits)| && BitsOf(PackBits(bits))[..|bits|] == bits
  {
    PackedBits(bits);
  }
}
