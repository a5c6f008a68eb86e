/** One request and its answer over a serial port: what each parser accepts, and what damage it refuses. */
module RtuExchange {
  import opened Basics
  import opened BitRegister
  import opened Crc
  import opened ErrorDetection
  import opened RtuCodec

  datatype ErrorCode =
    | Timeout
    | ConnectionFailed
    | InvalidResponse
    | IllegalFunction
    | IllegalAddress
    | DeviceFailure
    | NotAcknowledged
    | Unknown

  function CodeOfException(exception: byte): ErrorCode {
    match exception
    case 0x01 => IllegalFunction
    case 0x02 => IllegalAddress
    case 0x04 => DeviceFailure
    case _ => Unknown
  }

  // ----- the port -----

  /** What `write` does: raise, or report how many bytes it took (or report nothing). */
  datatype WriteOutcome = WriteRaises | Wrote(count: Option<int>)

  class SerialPort {
    const writeOutcome: WriteOutcome
    /** Which `read` call raises, if any does. */
    const raisingRead: Option<nat>
    var sent: seq<byte>
    /** Bytes still to be read from the line. */
    var incoming: seq<byte>
    var readCalls: nat

    constructor (writeOutcome: WriteOutcome, raisingRead: Option<nat>, incoming: seq<byte>)
      ensures this.writeOutcome == writeOutcome && this.raisingRead == raisingRead
      ensures this.incoming == incoming && sent == [] && readCalls == 0
    {
      this.writeOutcome, this.raisingRead, this.incoming, sent, readCalls := writeOutcome, raisingRead, incoming, [], 0;
    }

    method Write(frame: seq<byte>) returns (outcome: WriteOutcome)
      modifies this`sent
      ensures outcome == writeOutcome && sent == old(sent) + frame
    {
      sent := sent + frame;
      outcome := writeOutcome;
    }

    /** The port takes the whole request and no read on it raises. */
    predicate Healthy() {
      (writeOutcome == Wrote(None) || writeOutcome == Wrote(Some(8))) && raisingRead == None
    }

    /** Up to `size` bytes: fewer if the line falls silent first. */
    method Read(size: nat) returns (data: Option<seq<byte>>)
      modifies this`incoming, this`readCalls
      ensures readCalls == old(readCalls) + 1
      ensures raisingRead == Some(old(readCalls)) ==> data == None && incoming == old(incoming)
      ensures raisingRead != Some(old(readCalls)) ==>
                var n := Min(size, |old(incoming)|);
                data == Some(old(incoming)[..n]) && incoming == old(incoming)[n..]
    {
      var raises := raisingRead == Some(readCalls);
      readCalls := readCalls + 1;
      if raises {
        return None;
      }
      var n := Min(size, |incoming|);
      data := Some(incoming[..n]);
      incoming := incoming[n..];
    }
  }

  // ----- reads -----

  function Taken(stream: seq<byte>, size: nat, raises: bool): Result<seq<byte>, ErrorCode> {
    if raises then Err(ConnectionFailed)
    else
      var data := stream[..Min(size, |stream|)];
      if data == [] then Err(Timeout)
      else if |data| != size then Err(InvalidResponse)
      else Ok(data)
  }

  /** What a read makes of the line: the payload of the answer, or why there is none. */
  function ParseReply(unit: byte, code: byte, expected: nat, stream: seq<byte>, raising: Option<nat>): (r: Result<seq<byte>, ErrorCode>)
    requires code < 0x80
    ensures r.Ok? ==> |r.value| == expected < 256
  {
    var header := Taken(stream, 3, raising == Some(0));
    if header.Err? then Err(header.error)
    else if header.value[0] != unit then Err(InvalidResponse)
    else if header.value[1] == code + 0x80 then
      var crc := Taken(stream[3..], 2, raising == Some(1));
      if crc.Err? then Err(crc.error)
      else if !ValidCrc(header.value + crc.value) then Err(InvalidResponse)
      else Err(CodeOfException(header.value[2]))
    else if header.value[1] != code then Err(InvalidResponse)
    else if header.value[2] != expected then Err(InvalidResponse)
    else
      var rest := Taken(stream[3..], expected + 2, raising == Some(1));
      if rest.Err? then Err(rest.error)
      else if !ValidCrc(header.value + rest.value) then Err(InvalidResponse)
      else Ok(rest.value[..expected])
  }

  method ReadExact(port: SerialPort, size: nat) returns (data: Result<seq<byte>, ErrorCode>)
    modifies port`incoming, port`readCalls
    ensures port.readCalls == old(port.readCalls) + 1
    ensures data == Taken(old(port.incoming), size, port.raisingRead == Some(old(port.readCalls)))
    ensures data.Ok? ==> |data.value| == size && size <= |old(port.incoming)| && port.incoming == old(port.incoming)[size..]
  {
    var answer := port.Read(size);
    if answer.None? {
      return Err(ConnectionFailed);
    }
    if answer.value == [] {
      return Err(Timeout);
    }
    if |answer.value| != size {
      return Err(InvalidResponse);
    }
    return Ok(answer.value);
  }

  /** One read exchange, for registers and bits alike: write the request, read the answer, check it. */
  method Exchange(port: SerialPort, unit: byte, code: byte, address: word, quantity: word, expected: nat)
    returns (result: Result<seq<byte>, ErrorCode>)
    requires code < 0x80 && port.readCalls == 0
    modifies port
    ensures port.sent == old(port.sent) + ReadFrame(unit, code, address, quantity)
    ensures IsRequest(port.sent[|old(port.sent)|..], unit, code, address, quantity)
    ensures result == if port.writeOutcome.WriteRaises? || port.writeOutcome.count !in {None, Some(8)}
                      then Err(ConnectionFailed)
                      else ParseReply(unit, code, expected, old(port.incoming), port.raisingRead)
    ensures result.Ok? ==> expected + 5 <= |old(port.incoming)| && port.incoming == old(port.incoming)[expected + 5..]
  {
    var frame := ReadFrame(unit, code, address, quantity);
    ReadFrameSpelled(unit, code, address, quantity);
    var written := port.Write(frame);
    assert port.sent[|old(port.sent)|..] == frame;
    if written.WriteRaises? {
      return Err(ConnectionFailed);
    }
    if written.count.Some? && written.count.value != |frame| {
      return Err(ConnectionFailed);
    }
    var header := ReadExact(port, 3);
    if header.Err? {
      return Err(header.error);
    }
    if header.value[0] != unit {
      return Err(InvalidResponse);
    }
    if header.value[1] == code + 0x80 {
      var crc := ReadExact(port, 2);
      if crc.Err? {
        return Err(crc.error);
      }
      if !ValidCrc(header.value + crc.value) {
        return Err(InvalidResponse);
      }
      return Err(CodeOfException(header.value[2]));
    }
    if header.value[1] != code {
      return Err(InvalidResponse);
    }
    var count: int := header.value[2];
    if count != expected {
      return Err(InvalidResponse);
    }
    var rest := ReadExact(port, count + 2);
    if rest.Err? {
      return Err(rest.error);
    }
    if !ValidCrc(header.value + rest.value) {
      return Err(InvalidResponse);
    }
    return Ok(rest.value[..count]);
  }

  /** The header and the rest of a stream, when it is long enough to hold a frame with this payload size. */
  lemma FrameOnStream(unit: byte, code: byte, payload: seq<byte>, stream: seq<byte>)
    requires |payload| < 256
    ensures ReplyFrame(unit, code, payload) <= stream
            <==> && |stream| >= |payload| + 5 && stream[..3] == [unit, code, |payload|]
                 && stream[3..][..|payload|] == payload
                 && ValidCrc(stream[..3] + stream[3..][..|payload| + 2])
  {
    var n, head := |payload|, [unit, code, |payload|];
    var body := head + payload;
    if |stream| >= n + 5 {
      var front, trailer := stream[..n + 5], stream[n + 3..n + 5];
      assert front == stream[..3] + stream[3..][..n + 2];
      assert front == stream[..n + 3] + trailer;
      assert stream[..n + 3] == stream[..3] + stream[3..][..n];
      if stream[..n + 3] == body {
        OnlyItsOwnTrailer(body, trailer);
        assert stream[..3] == body[..3] == head && stream[3..][..n] == body[3..] == payload;
      }
      if ReplyFrame(unit, code, payload) <= stream {
        assert stream[..n + 3] == AppendCrc(body)[..n + 3] == body;
      }
      if stream[..3] == head && stream[3..][..n] == payload {
        assert stream[..n + 3] == body;
      }
    }
  }

  lemma AcceptedParts(unit: byte, code: byte, expected: nat, stream: seq<byte>, payload: seq<byte>)
    requires code < 0x80
    ensures ParseReply(unit, code, expected, stream, None) == Ok(payload)
            <==> && expected < 256 && |stream| >= expected + 5 && stream[..3] == [unit, code, expected]
                 && stream[3..][..expected] == payload
                 && ValidCrc(stream[..3] + stream[3..][..expected + 2])
  {
    if |stream| >= 3 {
      var header := stream[..3];
      assert header == [header[0], header[1], header[2]];
      if |stream| >= expected + 5 {
        assert stream[3..][..expected + 2][..expected] == stream[3..][..expected];
      }
    }
  }

  /** A read succeeds with a payload exactly when the line opens with the well-formed answer carrying it. */
  lemma ParsesExactlyWellFormedReplies(unit: byte, code: byte, expected: nat, stream: seq<byte>, payload: seq<byte>)
    requires code < 0x80
    ensures ParseReply(unit, code, expected, stream, None) == Ok(payload)
            <==> |payload| == expected < 256 && ReplyFrame(unit, code, payload) <= stream
  {
    AcceptedParts(unit, code, expected, stream, payload);
    if |payload| == expected < 256 {
      FrameOnStream(unit, code, payload, stream);
    }
  }

  /** A whole answer on the line, byte by byte. */
  predicate IsAnswer(stream: seq<byte>, unit: byte, code: byte, count: nat) {
    && |stream| >= count + 5
    && stream[0] == unit && stream[1] == code && stream[2] == count
    && Sealed(stream[..count + 5])
  }

  /** A read succeeds exactly on such an answer with the byte count asked for, and returns the bytes after the header. */
  lemma AcceptsExactlyWholeAnswers(unit: byte, code: byte, expected: nat, stream: seq<byte>)
    requires code < 0x80
    ensures var r := ParseReply(unit, code, expected, stream, None);
            && (r.Ok? <==> IsAnswer(stream, unit, code, expected))
            && (r.Ok? ==> r.value == stream[3..expected + 3])
  {
    var r := ParseReply(unit, code, expected, stream, None);
    if |stream| >= expected + 5 {
      var payload := stream[3..][..expected];
      assert payload == stream[3..expected + 3];
      assert stream[..expected + 5] == stream[..3] + stream[3..][..expected + 2];
      assert stream[..3] == [stream[0], stream[1], stream[2]];
      AcceptedParts(unit, code, expected, stream, payload);
    }
    if r.Ok? {
      AcceptedParts(unit, code, expected, stream, r.value);
      assert stream[..3][0] == unit && stream[..3][1] == code && stream[..3][2] == expected;
    }
  }

  /** A read that fails without an exception answer: what each failure is called. */
  lemma RefusalsAreNamed(unit: byte, code: byte, expected: nat, stream: seq<byte>, raising: Option<nat>)
    requires code < 0x80
    ensures var r := ParseReply(unit, code, expected, stream, raising);
            && (raising == Some(0) ==> r == Err(ConnectionFailed))
            && (raising != Some(0) && stream == [] ==> r == Err(Timeout))
            && (raising != Some(0) && 0 < |stream| < 3 ==> r == Err(InvalidResponse))
            && (raising != Some(0) && |stream| >= 3 && (stream[0] != unit || stream[1] !in [code, code + 0x80])
                ==> r == Err(InvalidResponse))
            && (raising != Some(0) && |stream| >= 3 && stream[0] == unit && stream[1] == code && stream[2] != expected
                ==> r == Err(InvalidResponse))
  {
    if |stream| >= 3 {
      assert stream[..3] == [stream[0], stream[1], stream[2]];
    }
  }

  /** The header was right: what becomes of the rest, `size` bytes of data or none at all and two of CRC. */
  lemma BrokenRestsAreNamed(unit: byte, code: byte, expected: nat, stream: seq<byte>, raising: Option<nat>)
    requires code < 0x80 && |stream| >= 3 && raising != Some(0) && stream[0] == unit
    requires stream[1] == code + 0x80 || (stream[1] == code && stream[2] == expected)
    ensures var r, size := ParseReply(unit, code, expected, stream, raising), if stream[1] == code then expected else 0;
            && (raising == Some(1) ==> r == Err(ConnectionFailed))
            && (raising != Some(1) && |stream| == 3 ==> r == Err(Timeout))
            && (raising != Some(1) && 3 < |stream| < size + 5 ==> r == Err(InvalidResponse))
            && (raising != Some(1) && |stream| >= size + 5 && !Sealed(stream[..size + 5]) ==> r == Err(InvalidResponse))
  {
    var size := if stream[1] == code then expected else 0;
    assert stream[..3] == [stream[0], stream[1], stream[2]];
    if |stream| >= size + 5 {
      assert stream[..size + 5] == stream[..3] + stream[3..][..size + 2];
    }
  }

  /** The error an exception code stands for. */
  predicate Names(exception: byte, error: ErrorCode) {
    && (exception == 1 ==> error == IllegalFunction)
    && (exception == 2 ==> error == IllegalAddress)
    && (exception == 4 ==> error == DeviceFailure)
    && (exception !in [1, 2, 4] ==> error == Unknown)
  }

  /** An exception answer: the unit, the function plus 128, the exception code and the CRC. */
  lemma ExceptionsAreNamed(unit: byte, code: byte, expected: nat, stream: seq<byte>)
    requires code < 0x80 && |stream| >= 5
    requires stream[0] == unit && stream[1] == code + 128 && Sealed(stream[..5])
    ensures var r := ParseReply(unit, code, expected, stream, None); r.Err? && Names(stream[2], r.error)
  {
    assert stream[..3] == [stream[0], stream[1], stream[2]];
    assert stream[..5] == stream[..3] + stream[3..][..2];
  }

  /** An exception answer is reported as the error it names. */
  lemma ExceptionsAreReported(unit: byte, code: byte, expected: nat, stream: seq<byte>, exception: byte)
    requires code < 0x80 && ExceptionFrame(unit, code, exception) <= stream
    ensures ParseReply(unit, code, expected, stream, None) == Err(CodeOfException(exception))
  {
    var body := [unit, code + 0x80, exception];
    var frame := AppendCrc(body);
    assert stream[..5] == frame && frame[..3] == body;
    assert stream[..3] == body && stream[3..][..2] == frame[3..];
    assert stream[..3] + stream[3..][..2] == frame;
    OnlyItsOwnTrailer(body, frame[3..]);
    assert body + frame[3..] == frame;
  }

  /** A read stays bounded by its answer: damage the CRC catches never yields a payload, right or wrong. */
  lemma DamagedReplyIsNeverAccepted(unit: byte, code: byte, payload: seq<byte>, received: seq<byte>)
    requires code < 0x80 && |payload| < 256
    requires |received| == |payload| + 5 && !ValidCrc(received)
    ensures ParseReply(unit, code, |payload|, received, None).Err?
  {
    var r := ParseReply(unit, code, |payload|, received, None);
    assert received == received[..3] + received[3..][..|payload| + 2];
    if r.Ok? {
      AcceptedParts(unit, code, |payload|, received, r.value);
    }
  }

  /** A burst of up to sixteen bits on the answer, anywhere in it, is an error and not a reading. */
  lemma {:induction false} BurstOnReplyIsRefused(unit: byte, code: byte, payload: seq<byte>, received: seq<byte>, from: nat, k: nat)
    requires code < 0x80 && |payload| < 256 && |received| == |payload| + 5
    requires var sent := ReplyFrame(unit, code, payload);
             && k < 8 * |sent| && BitsOf(sent)[k] != BitsOf(received)[k]
             && (forall i :: 0 <= i < 8 * |sent| && BitsOf(sent)[i] != BitsOf(received)[i] ==> from <= i < from + 16)
    ensures ParseReply(unit, code, |payload|, received, None).Err?
  {
    ReplyIsValid(unit, code, payload);
    BurstsAreDetected(ReplyFrame(unit, code, payload), received, from, k);
    DamagedReplyIsNeverAccepted(unit, code, payload, received);
  }

  /** So is any odd number of flipped bits. */
  lemma OddFlipsOnReplyAreRefused(unit: byte, code: byte, payload: seq<byte>, received: seq<byte>)
    requires code < 0x80 && |payload| < 256 && |received| == |payload| + 5
    requires Odd(Damage(ReplyFrame(unit, code, payload), received))
    ensures ParseReply(unit, code, |payload|, received, None).Err?
  {
    ReplyIsValid(unit, code, payload);
    OddFlipsAreDetected(ReplyFrame(unit, code, payload), received);
    DamagedReplyIsNeverAccepted(unit, code, payload, received);
  }

  lemma ReplyIsValid(unit: byte, code: byte, payload: seq<byte>)
    requires |payload| < 256
    ensures ValidCrc(ReplyFrame(unit, code, payload))
  {
    var body := [unit, code, |payload|] + payload;
    OnlyItsOwnTrailer(body, Trailer(Register(INITIAL, body)));
  }

  // ----- registers and bits -----

  datatype RegisterKind = Holding | Input
  datatype BitKind = Coil | DiscreteInput

  function RegisterCode(kind: RegisterKind): byte {
    match kind
    case Holding => 0x03
    case Input => 0x04
  }

  function BitCode(kind: BitKind): byte {
    match kind
    case Coil => 0x01
    case DiscreteInput => 0x02
  }

  /** What goes out for each kind of register: function 3 or 4. */
  lemma RegisterRequestSpelled(unit: byte, kind: RegisterKind, address: word, quantity: word)
    ensures IsRequest(ReadFrame(unit, RegisterCode(kind), address, quantity), unit, if kind.Holding? then 3 else 4, address, quantity)
  {
    ReadFrameSpelled(unit, RegisterCode(kind), address, quantity);
  }

  /** What goes out for each kind of bit: function 1 or 2. */
  lemma BitRequestSpelled(unit: byte, kind: BitKind, address: word, quantity: word)
    ensures IsRequest(ReadFrame(unit, BitCode(kind), address, quantity), unit, if kind.Coil? then 1 else 2, address, quantity)
  {
    ReadFrameSpelled(unit, BitCode(kind), address, quantity);
  }

  /** The line opens with the well-formed answer that encodes these words. */
  ghost predicate CarriesWords(unit: byte, code: byte, quantity: word, words: seq<word>, stream: seq<byte>) {
    |words| == quantity <= 125 && ReplyFrame(unit, code, BytesOfWords(words)) <= stream
  }

  lemma {:induction false} SameWords(data: seq<byte>, words: seq<word>)
    requires |data| % 2 == 0
    ensures BytesOfWords(words) == data
            <==> 2 * |words| == |data| && forall k :: 0 <= k < |words| ==> words[k] == 256 * (data[2 * k] as int) + data[2 * k + 1]
  {
    WordsRoundTrip(words);
    BytesRoundTrip(data);
    forall k | 0 <= k && 2 * k < |data| ensures WordsFromBytes(data)[k] == 256 * (data[2 * k] as int) + data[2 * k + 1] {
      WordAt(data, k);
    }
    if 2 * |words| == |data| && forall k :: 0 <= k < |words| ==> words[k] == 256 * (data[2 * k] as int) + data[2 * k + 1] {
      assert words == WordsFromBytes(data);
    }
  }

  /** Read off the line: a whole answer whose data bytes are the words, each with its high byte first. */
  lemma {:induction false} WordsOnTheLine(unit: byte, code: byte, quantity: word, words: seq<word>, stream: seq<byte>)
    requires code < 0x80 && quantity <= 125
    ensures CarriesWords(unit, code, quantity, words, stream)
            <==> && |words| == quantity && IsAnswer(stream, unit, code, 2 * quantity)
                 && forall k :: 0 <= k < quantity ==> words[k] == 256 * (stream[2 * k + 3] as int) + stream[2 * k + 4]
  {
    var size: nat := 2 * quantity;
    AcceptsExactlyWholeAnswers(unit, code, size, stream);
    ParsesExactlyWellFormedReplies(unit, code, size, stream, BytesOfWords(words));
    if IsAnswer(stream, unit, code, size) {
      SameWords(stream[3..size + 3], words);
    }
  }

  method ReadRegisters(port: SerialPort, unit: byte, kind: RegisterKind, address: word, quantity: word)
    returns (result: Result<seq<word>, ErrorCode>)
    requires 1 <= quantity <= 125 && port.readCalls == 0
    modifies port
    ensures port.sent == old(port.sent) + ReadFrame(unit, RegisterCode(kind), address, quantity)
    ensures port.Healthy() ==>
              forall words :: result == Ok(words) <==> CarriesWords(unit, RegisterCode(kind), quantity, words, old(port.incoming))
  {
    ghost var stream := port.incoming;
    var code := RegisterCode(kind);
    var payload := Exchange(port, unit, code, address, quantity, 2 * quantity);
    result := Decoded(payload);
    if port.Healthy() {
      WordsOfAnyReply(unit, code, quantity, stream, payload);
    }
  }

  lemma WordsOfAnyReply(unit: byte, code: byte, quantity: word, stream: seq<byte>, payload: Result<seq<byte>, ErrorCode>)
    requires code < 0x80 && 1 <= quantity <= 125
    requires payload == ParseReply(unit, code, 2 * quantity, stream, None)
    ensures forall words :: Decoded(payload) == Ok(words) <==> CarriesWords(unit, code, quantity, words, stream)
  {
    forall words: seq<word> ensures Decoded(payload) == Ok(words) <==> CarriesWords(unit, code, quantity, words, stream) {
      WordsOfReply(unit, code, quantity, stream, payload, words);
    }
  }

  function Decoded(payload: Result<seq<byte>, ErrorCode>): Result<seq<word>, ErrorCode>
    requires payload.Ok? ==> |payload.value| % 2 == 0
  {
    match payload
    case Err(error) => Err(error)
    case Ok(data) => Ok(WordsFromBytes(data))
  }

  lemma {:induction false} WordsOfReply(unit: byte, code: byte, quantity: word, stream: seq<byte>,
                                        payload: Result<seq<byte>, ErrorCode>, words: seq<word>)
    requires code < 0x80 && 1 <= quantity <= 125
    requires payload == ParseReply(unit, code, 2 * quantity, stream, None)
    requires payload.Ok? ==> |payload.value| % 2 == 0
    ensures Decoded(payload) == Ok(words) <==> CarriesWords(unit, code, quantity, words, stream)
  {
    ParsesExactlyWellFormedReplies(unit, code, 2 * quantity, stream, BytesOfWords(words));
    WordsOfPayload(payload, words);
  }

  lemma {:induction false} WordsOfPayload(payload: Result<seq<byte>, ErrorCode>, words: seq<word>)
    requires payload.Ok? ==> |payload.value| % 2 == 0
    ensures payload.Ok? && WordsFromBytes(payload.value) == words <==> payload == Ok(BytesOfWords(words))
  {
    WordsRoundTrip(words);
    if payload.Ok? {
      BytesRoundTrip(payload.value);
    }
  }

  method ReadBits(port: SerialPort, unit: byte, kind: BitKind, address: word, quantity: word)
    returns (result: Result<seq<bool>, ErrorCode>)
    requires 1 <= quantity <= 2000 && port.readCalls == 0
    modifies port
    ensures port.sent == old(port.sent) + ReadFrame(unit, BitCode(kind), address, quantity)
    ensures port.Healthy() ==>
              forall bits :: result == Ok(bits)
                <==> |bits| == quantity && exists payload :: CarriesBits(unit, BitCode(kind), payload, bits, old(port.incoming))
  {
    ghost var stream := port.incoming;
    var code := BitCode(kind);
    var expected := (quantity + 7) / 8;
    var payload := Exchange(port, unit, code, address, quantity, expected);
    if payload.Err? {
      result := Err(payload.error);
    } else {
      var bits := UnpackBits(payload.value, quantity);
      result := Ok(bits);
    }
    if port.Healthy() {
      forall bits: seq<bool>
        ensures result == Ok(bits) <==> |bits| == quantity && exists data :: CarriesBits(unit, code, data, bits, stream)
      {
        BitsOfReply(unit, code, quantity, stream, payload, bits);
      }
    }
  }

  /** The line opens with a well-formed answer whose payload begins with these bits; its padding may be anything. */
  ghost predicate CarriesBits(unit: byte, code: byte, payload: seq<byte>, bits: seq<bool>, stream: seq<byte>) {
    && |payload| == (|bits| + 7) / 8 < 256
    && ReplyFrame(unit, code, payload) <= stream
    && bits <= BitsOf(payload)
  }

  /** Read off the line: a whole answer whose data bytes hold the bits, least significant first. */
  lemma {:induction false} BitsOnTheLine(unit: byte, code: byte, quantity: word, bits: seq<bool>, stream: seq<byte>)
    requires code < 0x80 && 1 <= quantity <= 2000 && |bits| == quantity
    ensures (exists payload :: CarriesBits(unit, code, payload, bits, stream))
            <==> && IsAnswer(stream, unit, code, (quantity + 7) / 8)
                 && forall k :: 0 <= k < quantity ==> bits[k] == BitSet(stream[k / 8 + 3], k % 8)
  {
    var size: nat := (quantity + 7) / 8;
    AcceptsExactlyWholeAnswers(unit, code, size, stream);
    if IsAnswer(stream, unit, code, size) {
      var data := stream[3..size + 3];
      ParsesExactlyWellFormedReplies(unit, code, size, stream, data);
      forall k | 0 <= k < quantity ensures BitsOf(data)[k] == BitSet(stream[k / 8 + 3], k % 8) {
        PayloadBitAt(data, k);
      }
      if forall k :: 0 <= k < quantity ==> bits[k] == BitSet(stream[k / 8 + 3], k % 8) {
        assert CarriesBits(unit, code, data, bits, stream);
      }
    }
    if exists payload :: CarriesBits(unit, code, payload, bits, stream) {
      var payload :| CarriesBits(unit, code, payload, bits, stream);
      ParsesExactlyWellFormedReplies(unit, code, size, stream, payload);
    }
  }

  lemma BitsOfReply(unit: byte, code: byte, quantity: word, stream: seq<byte>,
                    payload: Result<seq<byte>, ErrorCode>, bits: seq<bool>)
    requires code < 0x80 && 1 <= quantity <= 2000
    requires payload == ParseReply(unit, code, (quantity + 7) / 8, stream, None)
    ensures payload.Ok? && quantity <= |BitsOf(payload.value)| && BitsOf(payload.value)[..quantity] == bits
            <==> |bits| == quantity && exists data :: CarriesBits(unit, code, data, bits, stream)
  {
    var expected := (quantity + 7) / 8;
    if payload.Ok? {
      ParsesExactlyWellFormedReplies(unit, code, expected, stream, payload.value);
      if |bits| == quantity && bits == BitsOf(payload.value)[..quantity] {
        assert CarriesBits(unit, code, payload.value, bits, stream);
      }
    }
    if |bits| == quantity && exists data :: CarriesBits(unit, code, data, bits, stream) {
      var data :| CarriesBits(unit, code, data, bits, stream);
      ParsesExactlyWellFormedReplies(unit, code, expected, stream, data);
    }
  }

  // ----- writing one coil -----

  function ParseEcho(frame: seq<byte>, stream: seq<byte>, raises: bool): Result<(), ErrorCode>
    requires |frame| == 8
  {
    var response := stream[..Min(8, |stream|)];
    if raises then Err(ConnectionFailed)
    else if response == [] then Err(Timeout)
    else if |response| == 5 && response[1] == WRITE_SINGLE_COIL + 0x80 then
      if !ValidCrc(response) then Err(InvalidResponse) else Err(CodeOfException(response[2]))
    else if |response| != 8 then Err(InvalidResponse)
    else if !ValidCrc(response) then Err(InvalidResponse)
    else if response != frame then Err(NotAcknowledged)
    else Ok(())
  }

  method WriteCoil(port: SerialPort, unit: byte, address: word, closed: bool) returns (result: Result<(), ErrorCode>)
    requires port.readCalls == 0
    modifies port
    ensures port.sent == old(port.sent) + WriteCoilFrame(unit, address, closed)
    ensures IsCoilOrder(port.sent[|old(port.sent)|..], unit, address, closed)
    ensures result == if port.writeOutcome.WriteRaises? || port.writeOutcome.count !in {None, Some(8)}
                      then Err(ConnectionFailed)
                      else ParseEcho(WriteCoilFrame(unit, address, closed), old(port.incoming), port.raisingRead == Some(0))
  {
    var frame := WriteCoilFrame(unit, address, closed);
    WriteCoilFrameSpelled(unit, address, closed);
    var written := port.Write(frame);
    assert port.sent[|old(port.sent)|..] == frame;
    if written.WriteRaises? {
      return Err(ConnectionFailed);
    }
    if written.count.Some? && written.count.value != |frame| {
      return Err(ConnectionFailed);
    }
    var answer := port.Read(8);
    if answer.None? {
      return Err(ConnectionFailed);
    }
    var response := answer.value;
    if response == [] {
      return Err(Timeout);
    }
    if |response| == 5 && response[1] == WRITE_SINGLE_COIL + 0x80 {
      if !ValidCrc(response) {
        return Err(InvalidResponse);
      }
      return Err(CodeOfException(response[2]));
    }
    if |response| != 8 {
      return Err(InvalidResponse);
    }
    if !ValidCrc(response) {
      return Err(InvalidResponse);
    }
    if response != frame {
      return Err(NotAcknowledged);
    }
    return Ok(());
  }

  /** An answer to a write that is no echo: what each is called. Only the first eight bytes are looked at. */
  lemma WriteRefusalsAreNamed(frame: seq<byte>, stream: seq<byte>, raises: bool)
    requires |frame| == 8
    ensures var r := ParseEcho(frame, stream, raises);
            && (raises ==> r == Err(ConnectionFailed))
            && (!raises && stream == [] ==> r == Err(Timeout))
            && (!raises && 0 < |stream| < 8 && !(|stream| == 5 && stream[1] == 0x85) ==> r == Err(InvalidResponse))
            && (!raises && |stream| == 5 && stream[1] == 0x85 ==>
                  r.Err? && if Sealed(stream) then Names(stream[2], r.error) else r.error == InvalidResponse)
            && (!raises && |stream| >= 8 && !Sealed(stream[..8]) ==> r == Err(InvalidResponse))
            && (!raises && |stream| >= 8 && Sealed(stream[..8]) ==> r == if stream[..8] == frame then Ok(()) else Err(NotAcknowledged))
  {
    if |stream| < 8 {
      assert stream[..|stream|] == stream;
    }
  }

  /** A write is confirmed exactly when the line opens with its own request, and an echo of one write confirms no other. */
  lemma ConfirmsExactlyItsOwnEcho(unit: byte, address: word, closed: bool, stream: seq<byte>)
    ensures ParseEcho(WriteCoilFrame(unit, address, closed), stream, false) == Ok(())
            <==> WriteCoilFrame(unit, address, closed) <= stream
    ensures forall unit': byte, address': word, closed' :: WriteCoilFrame(unit', address', closed') <= stream
              && ParseEcho(WriteCoilFrame(unit, address, closed), stream, false) == Ok(())
              ==> unit == unit' && address == address' && closed == closed'
  {
    var value := CoilValue(closed);
    var body := [unit, WRITE_SINGLE_COIL, address / 256, address % 256, value / 256, value % 256];
    var frame := WriteCoilFrame(unit, address, closed);
    OnlyItsOwnTrailer(body, Trailer(Register(INITIAL, body)));
    if frame <= stream {
      assert stream[..8] == frame;
    }
    forall unit': byte, address': word, closed' | WriteCoilFrame(unit', address', closed') <= stream && frame <= stream
      ensures unit == unit' && address == address' && closed == closed'
    {
      assert WriteCoilFrame(unit', address', closed') == stream[..8] == frame;
      WriteCoilFrameIsInjective(unit, address, closed, unit', address', closed');
    }
  }
}
