// Zig-zag variable-length longs: one encoder and two decoders, written independently.
// Source: src/alert/winter.rs (encode_long, encode_bytes, decode_long) and src/alert/base.rs
// (decode_variable, decode_long), after "Object Container Files" and the binary encoding of `long`
// in the Apache Avro specification 1.3.2.
//
// The code works on 64-bit words with shifts, or, exclusive or and complement; the specification
// reads numbers.
module AvroLong {
  import opened Bytes
  import opened WordBits
  import opened Wrappers

  // ----- encoding -----

  /** Little-endian base 128, every byte but the last with its high bit set. */
  function Varint(z: nat): ByteString {
    if z < 128 then [z] else [z % 128 + 128] + Varint(z / 128)
  }

  function LongBytes(n: i64): ByteString {
    Varint(ZigZag(n))
  }

  /** `len as i64`: the value itself for any length a Rust vector can have. */
  function AsI64(len: nat): i64 {
    if len < TWO63 then len else (len + TWO63) % TWO64 - TWO63
  }

  function BytesBytes(value: ByteString): ByteString {
    LongBytes(AsI64(|value|)) + value
  }

  /** One round of the encoder: the byte it pushes and the word it goes on with. */
  lemma EncodeRound(z: bv64)
    ensures LowByte(z & 0x7f) == Value(z) % 128 && LowByte((z & 0x7f) | 0x80) == Value(z) % 128 + 128
    ensures Value(z >> 7) == Value(z) / 128 && (z >> 7 == 0 <==> Value(z) < 128)
  {
    LowBytes(z);
    assert ShiftRight7(z) == z >> 7;
    hide Value, Seven, LowByte, ShiftRight7;
    ShiftSeven(z);
    ValueZero(z >> 7);
  }

  /** The byte of one round, and what is left to encode. */
  lemma EncodeStep(z: bv64, b: bv64)
    requires b == if z >> 7 != 0 then (z & 0x7f) | 0x80 else z & 0x7f
    ensures Varint(Value(z)) == [LowByte(b)] + if z >> 7 != 0 then Varint(Value(z >> 7)) else []
    ensures z >> 7 != 0 ==> Value(z >> 7) < Value(z)
  {
    hide Value, LowByte;
    EncodeRound(z);
  }

  /** The same behind what was pushed before; `rest` is the word the round goes on with. */
  lemma EncodeNext(data: ByteString, z: bv64, rest: bv64)
    requires rest == z >> 7
    ensures rest != 0 ==> data + Varint(Value(z)) == data + [LowByte((z & 0x7f) | 0x80)] + Varint(Value(rest))
    ensures rest == 0 ==> data + Varint(Value(z)) == data + [LowByte(z & 0x7f)]
    ensures rest != 0 ==> Value(rest) < Value(z)
  {
    hide Value, LowByte, Varint;
    EncodeStep(z, if rest != 0 then (z & 0x7f) | 0x80 else z & 0x7f);
  }

  lemma LowBytes(z: bv64)
    ensures LowByte(z & 0x7f) == Seven(z) && LowByte((z & 0x7f) | 0x80) == Seven(z) + 128
  {
    assert (z & 0x7f) & 0x80 == 0 && ((z & 0x7f) | 0x80) & 0x80 != 0;
    assert ((z & 0x7f) | 0x80) & 0x7f == z & 0x7f && (z & 0x7f) & 0x7f == z & 0x7f;
    hide Seven;
    SameLow((z & 0x7f) | 0x80, z);
    SameLow(z & 0x7f, z);
  }

  /** A growing output buffer (`Vec<u8>`). */
  class ByteBuffer {
    var data: ByteString

    constructor ()
      ensures data == []
    {
      data := [];
    }

    method ExtendFromSlice(value: ByteString)
      modifies this
      ensures data == old(data) + value
    {
      data := data + value;
    }

    method EncodeLong(n: i64)
      modifies this
      ensures data == old(data) + LongBytes(n)
    {
      hide Value, LowByte, ZigZagWord, SignedWord, Seven, Varint;
      var zz := ZigZagWord(SignedWord(n));
      ZigZagMeans(n);
      while true
        invariant data + Varint(Value(zz)) == old(data) + LongBytes(n)
        decreases Value(zz)
      {
        ghost var word := zz;
        var b := zz & 0x7f;
        zz := zz >> 7;
        if zz != 0 {
          b := b | 0x80;
        }
        EncodeNext(data, word, zz);
        data := data + [LowByte(b)];
        if zz == 0 {
          break;
        }
      }
    }

    method EncodeBytes(value: ByteString)
      modifies this
      ensures data == old(data) + BytesBytes(value)
    {
      EncodeLong(AsI64(|value|));
      ExtendFromSlice(value);
    }
  }

  // ----- decoding: what is to be read -----

  /** An unsigned varint's digits, and the position after them. */
  datatype Digits = Digits(value: nat, next: nat)

  datatype Long = Long(value: i64, next: nat)

  /** The unsigned varint at `pos`, of at most `budget` bytes. */
  function ReadDigits(b: ByteString, pos: nat, budget: nat): Option<Digits>
    decreases |b| - pos
  {
    if budget == 0 || pos >= |b| then None
    else if b[pos] < 128 then Some(Digits(b[pos], pos + 1))
    else
      match ReadDigits(b, pos + 1, budget - 1)
      case None => None
      case Some(rest) => Some(Digits(b[pos] % 128 + 128 * rest.value, rest.next))
  }

  /** The long at `pos`: at most ten bytes, bits beyond the 64th dropped. */
  function ReadLong(b: ByteString, pos: nat): (r: Option<Long>) {
    match ReadDigits(b, pos, 10)
    case None => None
    case Some(d) => Some(Long(UnZigZag(d.value % TWO64), d.next))
  }

  lemma {:induction false} DigitsRange(b: ByteString, pos: nat, budget: nat)
    ensures ReadDigits(b, pos, budget).Some? ==>
              pos < ReadDigits(b, pos, budget).value.next <= |b| &&
              ReadDigits(b, pos, budget).value.next <= pos + budget
    decreases budget
  {
    if budget > 0 && pos < |b| && b[pos] >= 128 {
      DigitsRange(b, pos + 1, budget - 1);
    }
  }

  /** A long takes between one and ten bytes. */
  lemma LongRange(b: ByteString, pos: nat)
    ensures ReadLong(b, pos).Some? ==>
              pos < ReadLong(b, pos).value.next <= |b| && ReadLong(b, pos).value.next <= pos + 10
  {
    DigitsRange(b, pos, 10);
  }

  // ----- decoding: the two loops -----

  /** The word a decoding loop ends with. */
  datatype Decoded = Decoded(word: bv64, next: nat)

  datatype LongError = EndOfData | IntegerOverflow | ShiftOverflow

  /** The loop of `decode_variable`, from its state (i, j) on. */
  function BoundedLoop(b: ByteString, pos: nat, i: bv64, j: nat): Result<Decoded, LongError>
    requires j <= 10
    decreases 10 - j
  {
    if j > 9 then Err(IntegerOverflow)
    else if pos >= |b| then Err(EndOfData)
    else if IsLast(b[pos]) then Ok(Decoded(Accumulate(i, b[pos], j * 7), pos + 1))
    else BoundedLoop(b, pos + 1, Accumulate(i, b[pos], j * 7), j + 1)
  }

  /** `b >> 7 == 0`, the end test of one decoder. */
  predicate IsLast(b: Byte) {
    ByteWord(b) >> 7 == 0
  }

  /** `b & 0x80 == 0`, the end test of the other. */
  predicate HasNoMore(b: Byte) {
    ByteWord(b) & 0x80 == 0
  }

  /** The loop of WINTER's `decode_long`, from its state (result, shift) on. The source has no check
      on the shift; a build that checks overflows stops where this answers ShiftOverflow. */
  function ShiftLoop(b: ByteString, pos: nat, result: bv64, shift: nat): Result<Decoded, LongError>
    decreases |b| - pos
  {
    if pos >= |b| then Err(EndOfData)
    else if shift >= 64 then Err(ShiftOverflow)
    else if HasNoMore(b[pos]) then Ok(Decoded(Accumulate(result, b[pos], shift), pos + 1))
    else ShiftLoop(b, pos + 1, Accumulate(result, b[pos], shift), shift + 7)
  }

  /** The same loop in a build that does not check overflows: the shift is taken modulo 64. */
  function MaskedLoop(b: ByteString, pos: nat, result: bv64, shift: nat): Result<Decoded, LongError>
    decreases |b| - pos
  {
    if pos >= |b| then Err(EndOfData)
    else if HasNoMore(b[pos]) then Ok(Decoded(Accumulate(result, b[pos], shift % 64), pos + 1))
    else MaskedLoop(b, pos + 1, Accumulate(result, b[pos], shift % 64), shift + 7)
  }

  /** `decode_long` of base.rs. */
  function BaseLong(b: ByteString, pos: nat): Option<Long> {
    match BoundedLoop(b, pos, 0, 0)
    case Ok(d) => Some(Long(Signed(UnZigZagNot(d.word)), d.next))
    case Err(_) => None
  }

  function WinterValue(r: Result<Decoded, LongError>): Option<Long> {
    match r
    case Ok(d) => Some(Long(Signed(UnZigZagXor(d.word)), d.next))
    case Err(_) => None
  }

  /** `decode_long` of winter.rs. */
  function WinterLong(b: ByteString, pos: nat): Option<Long> {
    WinterValue(ShiftLoop(b, pos, 0, 0))
  }

  lemma EndTests(b: Byte)
    ensures IsLast(b) <==> b < 128
    ensures HasNoMore(b) <==> b < 128
  {
    hide ByteWord;
    ByteWordBits(b);
  }

  lemma {:induction false} ScaledAdds(m: nat, n: nat, j: nat)
    ensures Scaled(m + 128 * n, j) == Scaled(m, j) + Scaled(n, j + 1)
    decreases j
  {
    if j > 0 {
      ScaledAdds(m, n, j - 1);
    }
  }

  /** The digits accumulated so far put in front of the rest, modulo 2^64. */
  predicate Completes(r: Result<Decoded, LongError>, rest: Option<Digits>, i: bv64, j: nat) {
    (r.Ok? <==> rest.Some?) &&
    (r.Ok? ==> r.value.next == rest.value.next &&
               Value(r.value.word) == (Value(i) + Scaled(rest.value.value, j)) % TWO64)
  }

  lemma ModuloTwice(a: nat, b: nat, c: nat)
    ensures ((a + b) % TWO64 + c) % TWO64 == (a + (b + c)) % TWO64
  {
  }

  lemma CompletesStep(r: Result<Decoded, LongError>, rest: Option<Digits>, i: bv64, byte: Byte, j: nat)
    requires Below(i, j) && j <= 9
    requires Completes(r, rest, Accumulate(i, byte, 7 * j), j + 1)
    ensures Completes(r, if rest.None? then None else Some(Digits(byte % 128 + 128 * rest.value.value, rest.value.next)),
                      i, j)
  {
    hide Value, Accumulate, Below, Scaled;
    AccumulateAdds(i, byte, j);
    if rest.Some? {
      ScaledAdds(byte % 128, rest.value.value, j);
      ModuloTwice(Value(i), Scaled(byte % 128, j), Scaled(rest.value.value, j + 1));
    }
  }

  lemma CompletesLast(i: bv64, byte: Byte, j: nat, next: nat)
    requires Below(i, j) && j <= 9 && byte < 128
    ensures Completes(Ok(Decoded(Accumulate(i, byte, 7 * j), next)), Some(Digits(byte, next)), i, j)
  {
    hide Value, Accumulate, Below, Scaled;
    AccumulateAdds(i, byte, j);
  }

  lemma {:induction false} BoundedLoopReads(b: ByteString, pos: nat, i: bv64, j: nat)
    requires j <= 10 && (j <= 9 ==> Below(i, j)) && (j == 10 ==> pos <= |b|)
    ensures Completes(BoundedLoop(b, pos, i, j), ReadDigits(b, pos, 10 - j), i, j)
    ensures BoundedLoop(b, pos, i, j).Err? ==>
              BoundedLoop(b, pos, i, j).error == if pos + (10 - j) <= |b| then IntegerOverflow else EndOfData
    decreases 10 - j
  {
    hide Accumulate, Below, Scaled, Value, IsLast, Completes;
    if j <= 9 && pos < |b| {
      EndTests(b[pos]);
      if b[pos] < 128 {
        CompletesLast(i, b[pos], j, pos + 1);
      } else {
        AccumulateAdds(i, b[pos], j);
        BoundedLoopReads(b, pos + 1, Accumulate(i, b[pos], j * 7), j + 1);
        CompletesStep(BoundedLoop(b, pos + 1, Accumulate(i, b[pos], j * 7), j + 1),
                      ReadDigits(b, pos + 1, 9 - j), i, b[pos], j);
      }
    } else {
      CompletesNot(BoundedLoop(b, pos, i, j), i, j);
    }
  }

  lemma CompletesNot(r: Result<Decoded, LongError>, i: bv64, j: nat)
    requires r.Err?
    ensures Completes(r, None, i, j)
  {
  }

  lemma {:induction false} ShiftLoopReads(b: ByteString, pos: nat, i: bv64, j: nat)
    requires j <= 10 && (j <= 9 ==> Below(i, j))
    ensures Completes(ShiftLoop(b, pos, i, 7 * j), ReadDigits(b, pos, 10 - j), i, j)
    ensures ShiftLoop(b, pos, i, 7 * j).Err? ==>
              ShiftLoop(b, pos, i, 7 * j).error == if pos + (10 - j) < |b| then ShiftOverflow else EndOfData
    ensures ShiftLoop(b, pos, i, 7 * j).Ok? ==> MaskedLoop(b, pos, i, 7 * j) == ShiftLoop(b, pos, i, 7 * j)
    decreases 10 - j
  {
    hide Accumulate, Below, Scaled, Value, HasNoMore, Completes;
    if j <= 9 && pos < |b| {
      EndTests(b[pos]);
      if b[pos] < 128 {
        CompletesLast(i, b[pos], j, pos + 1);
      } else {
        AccumulateAdds(i, b[pos], j);
        ShiftLoopReads(b, pos + 1, Accumulate(i, b[pos], 7 * j), j + 1);
        assert 7 * (j + 1) == 7 * j + 7;
        CompletesStep(ShiftLoop(b, pos + 1, Accumulate(i, b[pos], 7 * j), 7 * j + 7),
                      ReadDigits(b, pos + 1, 9 - j), i, b[pos], j);
      }
    } else {
      CompletesNot(ShiftLoop(b, pos, i, 7 * j), i, j);
    }
  }

  lemma FromZero(r: Result<Decoded, LongError>, rest: Option<Digits>)
    requires Completes(r, rest, 0, 0) && r.Ok?
    ensures Value(r.value.word) == rest.value.value % TWO64
    ensures Signed(UnZigZagNot(r.value.word)) == UnZigZag(rest.value.value % TWO64)
    ensures Signed(UnZigZagXor(r.value.word)) == UnZigZag(rest.value.value % TWO64)
  {
    assert Value(0) == 0;
    assert Scaled(rest.value.value, 0) == rest.value.value;
    hide Value, Signed, UnZigZagNot, UnZigZagXor, Scaled;
    UnZigZagMeans(r.value.word);
    SignRulesAgree(r.value.word);
  }

  /** Both decoders read the same long off every input, or both reject it: the one the
      specification reads. */
  lemma DecodersAgree(b: ByteString, pos: nat)
    ensures BaseLong(b, pos) == ReadLong(b, pos) == WinterLong(b, pos)
  {
    assert Below(0, 0);
    hide Completes, Below, Value, Signed, UnZigZagNot, UnZigZagXor, BoundedLoop, ShiftLoop, ReadDigits;
    BoundedLoopReads(b, pos, 0, 0);
    ShiftLoopReads(b, pos, 0, 0);
    CompletesMeans(BoundedLoop(b, pos, 0, 0), ReadDigits(b, pos, 10));
    CompletesMeans(ShiftLoop(b, pos, 0, 0), ReadDigits(b, pos, 10));
  }

  lemma CompletesMeans(r: Result<Decoded, LongError>, rest: Option<Digits>)
    requires Completes(r, rest, 0, 0)
    ensures r.Ok? <==> rest.Some?
    ensures r.Ok? ==>
              r.value.next == rest.value.next && Value(r.value.word) == rest.value.value % TWO64 &&
              Signed(UnZigZagNot(r.value.word)) == UnZigZag(rest.value.value % TWO64) &&
              Signed(UnZigZagXor(r.value.word)) == UnZigZag(rest.value.value % TWO64)
  {
    if r.Ok? {
      hide Value, Signed, UnZigZagNot, UnZigZagXor, Scaled;
      FromZero(r, rest);
    }
  }

  // ----- what the missing check on the shift lets through -----

  lemma {:induction false} NoDigitsEnd(b: ByteString, pos: nat, budget: nat)
    ensures ReadDigits(b, pos, budget).None? <==> forall k :: pos <= k < pos + budget && k < |b| ==> b[k] >= 128
    decreases budget
  {
    if budget > 0 && pos < |b| {
      NoDigitsEnd(b, pos + 1, budget - 1);
    }
  }

  lemma {:induction false} MaskedEnds(b: ByteString, pos: nat, result: bv64, shift: nat)
    ensures MaskedLoop(b, pos, result, shift).Ok? <==> exists k :: pos <= k < |b| && b[k] < 128
    decreases |b| - pos
  {
    hide Accumulate, HasNoMore;
    if pos < |b| {
      EndTests(b[pos]);
      MaskedEnds(b, pos + 1, Accumulate(result, b[pos], shift % 64), shift + 7);
    }
  }

  /** Without overflow checks WINTER's decoder still reads every long the other one reads; it
      differs exactly on a varint of more than ten bytes, which it accepts. */
  lemma UncheckedDiffersExactly(b: ByteString, pos: nat)
    ensures var unchecked := WinterValue(MaskedLoop(b, pos, 0, 0));
            (ReadLong(b, pos).Some? ==> unchecked == ReadLong(b, pos)) &&
            (ReadLong(b, pos).None? ==> (unchecked.Some? <==> exists k :: pos + 10 <= k < |b| && b[k] < 128))
  {
    assert Below(0, 0);
    DecodersAgree(b, pos);
    hide Completes, Below, Value, Signed, UnZigZagXor, ShiftLoop, MaskedLoop, ReadDigits, BaseLong;
    ShiftLoopReads(b, pos, 0, 0);
    MaskedEnds(b, pos, 0, 0);
    if ReadLong(b, pos).None? {
      NoDigitsEnd(b, pos, 10);
    }
  }

  /** Ten bytes 0x80 and a 0: too long for the checked decoders, and a number for the unchecked one. */
  const ELEVEN_BYTES: ByteString := [128, 128, 128, 128, 128, 128, 128, 128, 128, 128, 0]

  lemma ElevenBytesDiffer()
    ensures BaseLong(ELEVEN_BYTES, 0) == WinterLong(ELEVEN_BYTES, 0) == None
    ensures WinterValue(MaskedLoop(ELEVEN_BYTES, 0, 0, 0)).Some?
  {
    hide ReadDigits, BoundedLoop, ShiftLoop, MaskedLoop, UnZigZagNot, UnZigZagXor, Signed;
    NoDigitsEnd(ELEVEN_BYTES, 0, 10);
    DecodersAgree(ELEVEN_BYTES, 0);
    UncheckedDiffersExactly(ELEVEN_BYTES, 0);
    assert ELEVEN_BYTES[10] < 128;
  }

  // ----- the decoders -----

  /** `std::io::Cursor` over the packet, read by the header parser. */
  class Cursor {
    const data: ByteString
    var position: nat

    constructor (data: ByteString)
      ensures this.data == data && position == 0
    {
      this.data := data;
      position := 0;
    }

    /** `decode_variable`: one byte at a time, at most ten. */
    method DecodeVariable() returns (r: Result<bv64, LongError>)
      modifies this`position
      ensures match ReadDigits(data, old(position), 10)
              case Some(d) => r.Ok? && Value(r.value) == d.value % TWO64 && position == d.next
              case None => r == Err(FailureAt(data, old(position)))
    {
      ghost var start := position;
      ghost var all := BoundedLoop(data, start, 0, 0);
      BoundedVariable(data, start);
      hide ReadDigits, Accumulate, Value;
      var i: bv64 := 0;
      var j: nat := 0;
      while true
        invariant j <= 10
        invariant all == BoundedLoop(data, position, i, j)
        decreases 10 - j
      {
        if j > 9 {
          return Err(IntegerOverflow);
        }
        if position >= |data| {
          return Err(EndOfData);
        }
        var byte := data[position];
        position := position + 1;
        i := Accumulate(i, byte, j * 7);
        if IsLast(byte) {
          break;
        } else {
          j := j + 1;
        }
      }
      return Ok(i);
    }

    method DecodeLong() returns (r: Result<i64, LongError>)
      modifies this`position
      ensures match ReadLong(data, old(position))
              case Some(l) => r == Ok(l.value) && position == l.next
              case None => r == Err(FailureAt(data, old(position)))
    {
      hide ReadDigits, Value, Signed;
      var z := DecodeVariable();
      if z.Err? {
        return Err(z.error);
      }
      UnZigZagMeans(z.value);
      return Ok(Signed(if z.value & 1 == 0 then z.value >> 1 else !(z.value >> 1)));
    }
  }

  /** Why no long can be read at `pos`: ten bytes and none the last, or too few bytes. */
  function FailureAt(b: ByteString, pos: nat): LongError {
    if pos + 10 <= |b| then IntegerOverflow else EndOfData
  }

  lemma BoundedVariable(b: ByteString, pos: nat)
    ensures match ReadDigits(b, pos, 10)
            case Some(d) =>
              var r := BoundedLoop(b, pos, 0, 0);
              r.Ok? && Value(r.value.word) == d.value % TWO64 && r.value.next == d.next
            case None => BoundedLoop(b, pos, 0, 0) == Err(FailureAt(b, pos))
  {
    assert Below(0, 0);
    hide Completes, Below, Value, BoundedLoop, ReadDigits;
    BoundedLoopReads(b, pos, 0, 0);
    CompletesMeans(BoundedLoop(b, pos, 0, 0), ReadDigits(b, pos, 10));
  }

  /** WINTER's `decode_long`, over a slice and a position. */
  method DecodeLong(buf: ByteString, pos: nat) returns (r: Result<i64, LongError>, next: nat)
    ensures match ReadLong(buf, pos)
            case Some(l) => r == Ok(l.value) && next == l.next
            case None => r == Err(if pos + 10 < |buf| then ShiftOverflow else EndOfData)
  {
    ghost var all := ShiftLoop(buf, pos, 0, 0);
    WinterVariable(buf, pos);
    hide ReadLong, Accumulate, Signed, UnZigZagXor;
    next := pos;
    var shift: nat := 0;
    var result: bv64 := 0;
    while true
      invariant all == ShiftLoop(buf, next, result, shift)
      decreases |buf| - next
    {
      if next >= |buf| {
        return Err(EndOfData), next;
      }
      var b := buf[next];
      if shift >= 64 {
        return Err(ShiftOverflow), next;
      }
      next := next + 1;
      result := Accumulate(result, b, shift);
      if HasNoMore(b) {
        break;
      }
      shift := shift + 7;
    }
    return Ok(Signed(UnZigZagXor(result))), next;
  }

  lemma WinterVariable(b: ByteString, pos: nat)
    ensures WinterValue(ShiftLoop(b, pos, 0, 0)) == ReadLong(b, pos)
    ensures ReadLong(b, pos).None? ==>
              ShiftLoop(b, pos, 0, 0) == Err(if pos + 10 < |b| then ShiftOverflow else EndOfData)
  {
    assert Below(0, 0);
    DecodersAgree(b, pos);
    hide Completes, Below, Value, ShiftLoop, ReadDigits, Signed, UnZigZagXor, BaseLong;
    ShiftLoopReads(b, pos, 0, 0);
  }

  // ----- round trip -----

  /** `bytes` stands in `b` at `pos`. */
  predicate At(b: ByteString, pos: nat, bytes: ByteString) {
    pos + |bytes| <= |b| && b[pos..pos + |bytes|] == bytes
  }

  lemma AtConcat(b: ByteString, pos: nat, x: ByteString, y: ByteString)
    ensures At(b, pos, x + y) <==> At(b, pos, x) && At(b, pos + |x|, y)
  {
    if At(b, pos, x + y) {
      assert b[pos..pos + |x + y|][..|x|] == x;
      assert b[pos..pos + |x + y|][|x|..] == y;
    }
  }

  lemma {:induction false} DigitsOfVarint(z: nat, budget: nat, b: ByteString, pos: nat)
    requires budget >= 1 && z < Scaled(1, budget) && At(b, pos, Varint(z))
    ensures 1 <= |Varint(z)| <= budget
    ensures ReadDigits(b, pos, budget) == Some(Digits(z, pos + |Varint(z)|))
    decreases budget
  {
    if z < 128 {
      assert b[pos] == b[pos..pos + 1][0];
    } else {
      AtConcat(b, pos, [z % 128 + 128], Varint(z / 128));
      assert b[pos] == b[pos..pos + 1][0];
      assert Scaled(1, 1) == 128;
      DigitsOfVarint(z / 128, budget - 1, b, pos + 1);
    }
  }

  lemma ZigZagInverse(n: i64)
    ensures UnZigZag(ZigZag(n)) == n
  {
  }

  lemma UnZigZagInverse(z: u64)
    ensures ZigZag(UnZigZag(z)) == z
  {
  }

  lemma SixtyFourBitsFit()
    ensures TWO64 <= Scaled(1, 10)
  {
    ScaledNine(1);
    assert Scaled(1, 10) == 128 * Scaled(1, 9);
  }

  /** Every 64-bit integer survives encoding and decoding, whatever follows it in the buffer,
      and exactly the encoded bytes, at most ten, are consumed. */
  lemma LongRoundTrip(n: i64, b: ByteString, pos: nat)
    requires At(b, pos, LongBytes(n))
    ensures ReadLong(b, pos) == Some(Long(n, pos + |LongBytes(n)|))
    ensures 1 <= |LongBytes(n)| <= 10
  {
    SixtyFourBitsFit();
    ZigZagInverse(n);
    hide Scaled, ReadDigits, Varint, At, ZigZag, UnZigZag;
    DigitsOfVarint(ZigZag(n), 10, b, pos);
  }
}
