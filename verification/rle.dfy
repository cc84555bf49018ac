/**
 * The instruction set of the rTIL tile bitmap: eight instruction kinds, each in a one-byte
 * short form (counts 1..32) and a two-byte long form (counts 1..1024).
 *
 *   000n nnnn / 0010 00nn nnnn nnnn   n+1 empty tiles
 *   010n nnnn / 0110 00nn nnnn nnnn   n+1 present tiles
 *   100n nnnn / 1010 00nn nnnn nnnn   n+1 empty rows
 *   110n nnnn / 1110 00nn nnnn nnnn   repeat the last row n+1 times
 *
 * The kind is the top three bits of the first byte; an even kind is a short form.
 */
module Rle {
  import opened JavaInts
  import ByteArrays

  const SMALL_EMPTY_RUN := 0
  const LONG_EMPTY_RUN := 1
  const SMALL_PRESENT_RUN := 2
  const LONG_PRESENT_RUN := 3
  const SMALL_EMPTY_ROWS := 4
  const LONG_EMPTY_ROWS := 5
  const SMALL_REPEAT := 6
  const LONG_REPEAT := 7

  lemma Pow2Small()
    ensures Pow2(0) == 1 && Pow2(1) == 2 && Pow2(2) == 4 && Pow2(3) == 8 && Pow2(4) == 16
    ensures Pow2(5) == 32 && Pow2(6) == 64 && Pow2(7) == 128 && Pow2(8) == 256
  {
    assert Pow2(1) == 2 * Pow2(0);
    assert Pow2(2) == 2 * Pow2(1);
    assert Pow2(3) == 2 * Pow2(2);
    assert Pow2(4) == 2 * Pow2(3);
    assert Pow2(5) == 2 * Pow2(4);
    assert Pow2(6) == 2 * Pow2(5);
    assert Pow2(7) == 2 * Pow2(6);
    assert Pow2(8) == 2 * Pow2(7);
  }

  /**
   * `getBitFragment(b, startIndex, endIndex)`: bits `startIndex..endIndex` of a byte, counted
   * 1..8 from the most significant bit. The byte is sign-extended before the shift and the
   * mask `(byte) ((1 << numBits) - 1)` is -1 for eight bits, so only fields of up to seven
   * bits come out unsigned.
   */
  function GetBitFragment(b: byte, startIndex: int, endIndex: int): (r: int)
    requires 1 <= startIndex <= endIndex <= 8
    ensures endIndex - startIndex + 1 <= 7 ==> 0 <= r < Pow2(endIndex - startIndex + 1)
  {
    var shift := 8 - endIndex;
    var numBits := endIndex - startIndex + 1;
    var shifted := Signed8(b) / Pow2(shift);
    if numBits <= 7 then shifted % Pow2(numBits) else shifted
  }

  /**
   * Fields of up to seven bits are the unsigned bits of the byte; the full byte comes out
   * signed.
   */
  lemma BitFragmentIsField(b: byte, startIndex: int, endIndex: int)
    requires 1 <= startIndex <= endIndex <= 8
    ensures var n := endIndex - startIndex + 1;
            n <= 7 ==> GetBitFragment(b, startIndex, endIndex) == (b / Pow2(8 - endIndex)) % Pow2(n)
    ensures endIndex - startIndex + 1 == 8 ==> GetBitFragment(b, startIndex, endIndex) == Signed8(b)
  {
    var shift := 8 - endIndex;
    var numBits := endIndex - startIndex + 1;
    Pow2Small();
    if numBits <= 7 {
      Pow2Add(shift, 8 - shift);
      Pow2Add(numBits, 8 - shift - numBits);
      ByteArrays.FieldOfRemainder(Signed8(b), Pow2(shift), Pow2(8 - shift), Pow2(numBits), Pow2(8 - shift - numBits));
    }
  }

  /** `getEncodedType`: the top three bits of the first instruction byte. */
  function GetEncodedType(typeByte: byte): (r: int)
    ensures 0 <= r < 8
  {
    Pow2Small();
    GetBitFragment(typeByte, 1, 3)
  }

  /** `getEncodedLength(one)`: the low five bits plus one. */
  function GetEncodedShortLength(one: byte): (r: int)
    ensures 1 <= r <= 32
  {
    Pow2Small();
    GetBitFragment(one, 4, 8) + 1
  }

  /**
   * `getEncodedLength(one, two)`: the low two bits of the first byte above the second byte,
   * plus one. The `|` of the Java code combines disjoint bit ranges and is a sum here.
   */
  function GetEncodedLongLength(one: byte, two: byte): (r: int)
    ensures 1 <= r <= 1024
  {
    Pow2Small();
    GetBitFragment(one, 7, 8) * 256 + two + 1
  }

  /** The header fields: kind = top three bits, short length = low five bits + 1, long length = low two bits of the first byte * 256 + second byte + 1. */
  lemma HeaderFields(one: byte, two: byte)
    ensures GetEncodedType(one) == one / 32
    ensures GetEncodedShortLength(one) == one % 32 + 1
    ensures GetEncodedLongLength(one, two) == (one % 4) * 256 + two + 1
  {
    Pow2Small();
    BitFragmentIsField(one, 1, 3);
    BitFragmentIsField(one, 4, 8);
    BitFragmentIsField(one, 7, 8);
  }

  /** `getEncodedLength(data, offset, type)`: the short or the long length by the kind's parity. */
  function GetEncodedLength(data: seq<byte>, offset: int, kind: int): (r: int)
    requires 0 <= offset < |data| && (kind % 2 != 0 ==> offset + 1 < |data|)
    ensures 1 <= r <= 1024
  {
    if kind % 2 == 0 then GetEncodedShortLength(data[offset])
    else GetEncodedLongLength(data[offset], data[offset + 1])
  }

  /** The bytes of an instruction of kind `base` or `base + 1` (`base` even) for count 1..1024. */
  function EncodeInstruction(baseKind: int, count: int): (r: seq<byte>)
    requires baseKind in {0, 2, 4, 6} && 1 <= count <= 1024
    ensures |r| == if count <= 32 then 1 else 2
    ensures r[0] / 32 == baseKind + (if count <= 32 then 0 else 1)
    ensures count <= 32 ==> r[0] % 32 + 1 == count
    ensures count > 32 ==> (r[0] as int % 4) * 256 + r[1] as int + 1 == count
  {
    var i := count - 1;
    if count <= 32 then
      var b := baseKind * 32 + i;
      assert b / 32 == baseKind && b % 32 == i;
      [b]
    else
      var hi, lo := i / 256, i % 256;
      var b := (baseKind + 1) * 32 + hi;
      assert 0 <= hi < 4 && i == hi * 256 + lo;
      assert b / 32 == baseKind + 1 && b % 4 == hi;
      [b, lo]
  }

  /** `encodeEmptyRows`: 100n nnnn, or 1010 00nn nnnn nnnn above 32 rows. */
  function EncodeEmptyRows(count: int): (r: seq<byte>)
    requires 1 <= count <= 1024
    ensures |r| == if count <= 32 then 1 else 2
    ensures r[0] / 32 == if count <= 32 then SMALL_EMPTY_ROWS else LONG_EMPTY_ROWS
  {
    EncodeInstruction(SMALL_EMPTY_ROWS, count)
  }

  /** `encodeRun`: a run of empty (000, 001) or present (010, 011) tiles. */
  function EncodeRun(count: int, inRegion: bool): (r: seq<byte>)
    requires 1 <= count <= 1024
    ensures |r| == if count <= 32 then 1 else 2
    ensures r[0] / 32 == (if inRegion then SMALL_PRESENT_RUN else SMALL_EMPTY_RUN) + (if count <= 32 then 0 else 1)
  {
    EncodeInstruction(if inRegion then SMALL_PRESENT_RUN else SMALL_EMPTY_RUN, count)
  }

  /** `encodeRepeatLastRow`: 110n nnnn, or 1110 00nn nnnn nnnn above 32 repetitions. */
  function EncodeRepeatLastRow(count: int): (r: seq<byte>)
    requires 1 <= count <= 1024
    ensures |r| == if count <= 32 then 1 else 2
    ensures r[0] / 32 == if count <= 32 then SMALL_REPEAT else LONG_REPEAT
  {
    EncodeInstruction(SMALL_REPEAT, count)
  }

  /** The four instructions, whatever their form. */
  datatype Op = EmptyRun(count: int) | PresentRun(count: int) | EmptyRows(count: int) | RepeatRow(count: int)

  predicate ValidOp(op: Op)
  {
    1 <= op.count <= 1024
  }

  /** The even kind of an instruction's short form. */
  function BaseKind(op: Op): (k: int)
    ensures k in {0, 2, 4, 6}
  {
    match op
    case EmptyRun(_) => SMALL_EMPTY_RUN
    case PresentRun(_) => SMALL_PRESENT_RUN
    case EmptyRows(_) => SMALL_EMPTY_ROWS
    case RepeatRow(_) => SMALL_REPEAT
  }

  /** The bytes the encoders of the compressor emit for an instruction. */
  function OpBytes(op: Op): (r: seq<byte>)
    requires ValidOp(op)
    ensures |r| == if op.count <= 32 then 1 else 2
  {
    match op
    case EmptyRun(n) => EncodeRun(n, false)
    case PresentRun(n) => EncodeRun(n, true)
    case EmptyRows(n) => EncodeEmptyRows(n)
    case RepeatRow(n) => EncodeRepeatLastRow(n)
  }

  /** The instruction a decoded kind and length stand for. */
  function DecodeOp(kind: int, len: int): (op: Op)
    requires 0 <= kind < 8
    ensures op.count == len && BaseKind(op) == kind - kind % 2
  {
    if kind / 2 == 0 then EmptyRun(len)
    else if kind / 2 == 1 then PresentRun(len)
    else if kind / 2 == 2 then EmptyRows(len)
    else RepeatRow(len)
  }

  /** An instruction read from the data and the number of bytes it takes, or a long form cut short. */
  datatype Decoded = Instr(op: Op, width: nat) | Truncated

  /**
   * One instruction of the decoding loop at `data[o]`: the kind from the first byte, the
   * length from the first byte (short forms, one byte) or from the first two (long forms).
   * A long form whose second byte lies beyond the data is `Truncated`, where Java throws.
   */
  function ReadInstruction(data: seq<byte>, o: int): (r: Decoded)
    requires 0 <= o < |data|
    ensures r.Instr? ==> ValidOp(r.op) && 1 <= r.width <= 2 && o + r.width <= |data|
    ensures r.Truncated? <==> GetEncodedType(data[o]) % 2 != 0 && o + 1 >= |data|
  {
    var kind := GetEncodedType(data[o]);
    if kind % 2 != 0 && o + 1 >= |data| then Truncated
    else Instr(DecodeOp(kind, GetEncodedLength(data, o, kind)), if kind % 2 == 0 then 1 else 2)
  }

  /** What the kind and length fields of an encoded instruction hold. */
  lemma EncodeInstructionFields(baseKind: int, count: int)
    requires baseKind in {0, 2, 4, 6} && 1 <= count <= 1024
    ensures var bs := EncodeInstruction(baseKind, count);
            && (count <= 32 ==> GetEncodedType(bs[0]) == baseKind && GetEncodedShortLength(bs[0]) == count)
            && (count > 32 ==> GetEncodedType(bs[0]) == baseKind + 1
                               && GetEncodedLongLength(bs[0], bs[1]) == count)
  {
    var i := count - 1;
    var bs := EncodeInstruction(baseKind, count);
    HeaderFields(bs[0], if count > 32 then bs[1] else 0);
    if count > 32 {
      var hi, lo := i / 256, i % 256;
      assert 0 <= hi < 4;
      var b0 := (baseKind + 1) * 32 + hi;
      assert b0 / 32 == baseKind + 1;
      assert b0 % 4 == hi;
    }
  }

  /**
   * Instruction round trip: an encoded instruction is one byte exactly when its count is at
   * most 32, its kind says which form it is, and the kind and length read back from its bytes
   * are the instruction's own.
   */
  lemma OpRoundTrip(op: Op)
    requires ValidOp(op)
    ensures var bs := OpBytes(op);
            var kind := GetEncodedType(bs[0]);
            && (|bs| == 1 <==> op.count <= 32)
            && (kind % 2 == 0 <==> |bs| == 1)
            && GetEncodedLength(bs, 0, kind) == op.count
            && DecodeOp(kind, op.count) == op
  {
    var bs := OpBytes(op);
    assert bs == EncodeInstruction(BaseKind(op), op.count);
    EncodeInstructionFields(BaseKind(op), op.count);
  }

  /** The same round trip, for an instruction found inside a larger byte sequence. */
  lemma OpRoundTripAt(data: seq<byte>, o: int, op: Op)
    requires ValidOp(op) && 0 <= o && o + |OpBytes(op)| <= |data|
    requires data[o..o + |OpBytes(op)|] == OpBytes(op)
    ensures ReadInstruction(data, o) == Instr(op, |OpBytes(op)|)
  {
    var bs := OpBytes(op);
    OpRoundTrip(op);
    assert data[o] == bs[0];
    if |bs| == 2 {
      assert data[o + 1] == bs[1];
    }
  }

  /**
   * Of a long form's first byte only the kind (top three bits) and the low two bits count:
   * the three bits between them are ignored.
   */
  lemma LongFormIgnoresMiddleBits(kind: int, junk: int, hi: int, two: byte)
    requires 0 <= kind < 8 && 0 <= junk < 8 && 0 <= hi < 4
    ensures var one := kind * 32 + junk * 4 + hi;
            GetEncodedType(one) == kind && GetEncodedLongLength(one, two) == hi * 256 + two + 1
  {
    var one := kind * 32 + junk * 4 + hi;
    HeaderFields(one, two);
    DivModUnique(one, 32, kind, junk * 4 + hi);
    DivModUnique(one, 4, kind * 8 + junk, hi);
  }
}
