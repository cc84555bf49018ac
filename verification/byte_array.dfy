/**
 * The cursor byte buffer of the map code: a byte array plus an insertion pointer, with
 * big- and little-endian integer writers and readers, one-byte-per-character string
 * access and bit-field extraction.
 *
 * The readers and `GetPartial` are pure expressions over the current contents and are
 * modelled as functions of a `seq<byte>`; everything that stores into the array or moves
 * the pointer is a method of the class `ByteArray`.
 */
module ByteArrays {
  import opened JavaInts

  datatype Option<T> = None | Some(value: T)

  // ---------------------------------------------------------------------------
  // Byte sequences as numbers
  // ---------------------------------------------------------------------------

  /** The unsigned number whose bytes, most significant first, are `bs`. */
  function ValueBE(bs: seq<byte>): nat
  {
    if bs == [] then 0 else ValueBE(bs[..|bs| - 1]) * 256 + bs[|bs| - 1]
  }

  /** The unsigned number whose bytes, least significant first, are `bs`. */
  function ValueLE(bs: seq<byte>): nat
  {
    if bs == [] then 0 else bs[0] + 256 * ValueLE(bs[1..])
  }

  /** The `n` low bytes of the two's-complement representation of `v`, least significant first. */
  function LEBytes(v: int, n: nat): (r: seq<byte>)
    requires n <= 8
    ensures |r| == n
    decreases n
  {
    if n == 0 then [] else [v % 256] + LEBytes(v / 256, n - 1)
  }

  /** The `n` low bytes of the two's-complement representation of `v`, most significant first. */
  function BEBytes(v: int, n: nat): (r: seq<byte>)
    requires n <= 8
    ensures |r| == n
    decreases n
  {
    if n == 0 then [] else BEBytes(v / 256, n - 1) + [v % 256]
  }

  lemma {:induction false} LEBytesAt(v: int, n: nat)
    requires n <= 8
    ensures forall k :: 0 <= k < n ==> LEBytes(v, n)[k] == ByteOf(v, k)
    decreases n
  {
    if n > 0 {
      var tail := LEBytes(v / 256, n - 1);
      assert LEBytes(v, n) == [v % 256] + tail;
      LEBytesAt(v / 256, n - 1);
      forall k | 1 <= k < n
        ensures LEBytes(v, n)[k] == ByteOf(v, k)
      {
        ByteOfShift(v, k - 1);
        assert LEBytes(v, n)[k] == tail[k - 1];
      }
    }
  }

  lemma {:induction false} LEBytesValue(v: int, n: nat)
    requires n <= 8
    ensures ValueLE(LEBytes(v, n)) == v % Radix(n)
    decreases n
  {
    if n > 0 {
      var tail := LEBytes(v / 256, n - 1);
      assert LEBytes(v, n)[1..] == tail;
      LEBytesValue(v / 256, n - 1);
      ModSplit(v, Radix(n - 1));
    }
  }

  lemma {:induction false} BEBytesAt(v: int, n: nat)
    requires n <= 8
    ensures forall k :: 0 <= k < n ==> BEBytes(v, n)[k] == ByteOf(v, n - 1 - k)
    decreases n
  {
    if n > 0 {
      var front := BEBytes(v / 256, n - 1);
      assert BEBytes(v, n) == front + [v % 256];
      BEBytesAt(v / 256, n - 1);
      forall k | 0 <= k < n - 1
        ensures BEBytes(v, n)[k] == ByteOf(v, n - 1 - k)
      {
        ByteOfShift(v, n - 2 - k);
        assert BEBytes(v, n)[k] == front[k];
      }
    }
  }

  lemma {:induction false} BEBytesValue(v: int, n: nat)
    requires n <= 8
    ensures ValueBE(BEBytes(v, n)) == v % Radix(n)
    decreases n
  {
    if n > 0 {
      var front := BEBytes(v / 256, n - 1);
      assert BEBytes(v, n)[..n - 1] == front;
      BEBytesValue(v / 256, n - 1);
      ModSplit(v, Radix(n - 1));
    }
  }

  lemma ValueBE2(bs: seq<byte>)
    requires |bs| == 2
    ensures ValueBE(bs) == bs[0] as int * 256 + bs[1]
  {
    assert ValueBE(bs) == ValueBE(bs[..1]) * 256 + bs[1];
    assert ValueBE(bs[..1]) == ValueBE(bs[..1][..0]) * 256 + bs[0];
    assert bs[..1][..0] == [];
  }

  lemma ValueLE2(bs: seq<byte>)
    requires |bs| == 2
    ensures ValueLE(bs) == bs[0] as int + 256 * (bs[1] as int)
  {
    assert ValueLE(bs) == bs[0] + 256 * ValueLE(bs[1..]);
    assert ValueLE(bs[1..]) == bs[1] + 256 * ValueLE(bs[1..][1..]);
    assert bs[1..][1..] == [];
  }

  lemma ValueBE4(bs: seq<byte>)
    requires |bs| == 4
    ensures ValueBE(bs) == ((bs[0] as int * 256 + bs[1]) * 256 + bs[2]) * 256 + bs[3]
  {
    ValueBE2(bs[..2]);
    assert ValueBE(bs) == ValueBE(bs[..3]) * 256 + bs[3];
    assert ValueBE(bs[..3]) == ValueBE(bs[..3][..2]) * 256 + bs[2];
    assert bs[..3][..2] == bs[..2];
  }

  lemma ValueLE4(bs: seq<byte>)
    requires |bs| == 4
    ensures ValueLE(bs) == bs[0] as int + 256 * (bs[1] as int + 256 * (bs[2] as int + 256 * (bs[3] as int)))
  {
    ValueLE2(bs[2..]);
    assert ValueLE(bs) == bs[0] + 256 * ValueLE(bs[1..]);
    assert ValueLE(bs[1..]) == bs[1] + 256 * ValueLE(bs[1..][1..]);
    assert bs[1..][1..] == bs[2..];
  }

  // ---------------------------------------------------------------------------
  // Encoders used by the writers (the shift-and-mask expressions of ByteArray.java)
  // ---------------------------------------------------------------------------

  /** `addShort`: high byte first. */
  function ShortBE(v: i16): (r: seq<byte>)
    ensures r == BEBytes(v, 2)
    ensures ValueBE(r) == v % TWO_16
  {
    BEBytesAt(v, 2);
    BEBytesValue(v, 2);
    [ByteOf(v, 1), ByteOf(v, 0)]
  }

  /** `addLittleEndianShort`: low byte first. */
  function ShortLE(v: i16): (r: seq<byte>)
    ensures r == LEBytes(v, 2)
    ensures ValueLE(r) == v % TWO_16
  {
    LEBytesAt(v, 2);
    LEBytesValue(v, 2);
    [ByteOf(v, 0), ByteOf(v, 1)]
  }

  /** `addInt`: most significant byte first. */
  function IntBE(v: i32): (r: seq<byte>)
    ensures r == BEBytes(v, 4)
    ensures ValueBE(r) == v % TWO_32
  {
    BEBytesAt(v, 4);
    BEBytesValue(v, 4);
    [ByteOf(v, 3), ByteOf(v, 2), ByteOf(v, 1), ByteOf(v, 0)]
  }

  /** `addLittleEndianInt`: least significant byte first. */
  function IntLE(v: i32): (r: seq<byte>)
    ensures r == LEBytes(v, 4)
    ensures ValueLE(r) == v % TWO_32
  {
    LEBytesAt(v, 4);
    LEBytesValue(v, 4);
    [ByteOf(v, 0), ByteOf(v, 1), ByteOf(v, 2), ByteOf(v, 3)]
  }

  /** `addLong`: most significant byte first. */
  function LongBE(v: i64): (r: seq<byte>)
    ensures r == BEBytes(v, 8)
    ensures ValueBE(r) == v % Radix(8)
  {
    BEBytesAt(v, 8);
    BEBytesValue(v, 8);
    [ByteOf(v, 7), ByteOf(v, 6), ByteOf(v, 5), ByteOf(v, 4),
     ByteOf(v, 3), ByteOf(v, 2), ByteOf(v, 1), ByteOf(v, 0)]
  }

  /** `addLittleEndianLong`: least significant byte first. */
  function LongLE(v: i64): (r: seq<byte>)
    ensures r == LEBytes(v, 8)
    ensures ValueLE(r) == v % Radix(8)
  {
    LEBytesAt(v, 8);
    LEBytesValue(v, 8);
    [ByteOf(v, 0), ByteOf(v, 1), ByteOf(v, 2), ByteOf(v, 3),
     ByteOf(v, 4), ByteOf(v, 5), ByteOf(v, 6), ByteOf(v, 7)]
  }

  /**
   * The two byte orders are mirror images of each other; with the encoders' contracts this
   * covers `addShort`/`addLittleEndianShort` (n = 2), the int pair (4) and the long pair (8).
   */
  lemma ByteOrderMirror(v: int, n: nat)
    requires n <= 8
    ensures forall k :: 0 <= k < n ==> BEBytes(v, n)[k] == LEBytes(v, n)[n - 1 - k]
  {
    BEBytesAt(v, n);
    LEBytesAt(v, n);
  }

  /**
   * `s` with the bytes `w` stored from index `i` on: the effect of every writer. Storing
   * nothing changes nothing, wherever `i` points.
   */
  function Overwrite(s: seq<byte>, i: int, w: seq<byte>): (r: seq<byte>)
    requires w == [] || (0 <= i && i + |w| <= |s|)
    ensures |r| == |s|
    ensures w != [] ==> r[i..i + |w|] == w
    ensures forall j :: 0 <= j < |s| && !(i <= j < i + |w|) ==> r[j] == s[j]
  {
    if w == [] then s else s[..i] + w + s[i + |w|..]
  }

  /** A sequence that agrees with the stored bytes inside the window and with `s` outside it. */
  lemma OverwriteElements(s: seq<byte>, i: int, w: seq<byte>, t: seq<byte>)
    requires w == [] || (0 <= i && i + |w| <= |s|)
    requires |t| == |s|
    requires forall j :: 0 <= j < |s| ==> t[j] == if i <= j < i + |w| then w[j - i] else s[j]
    ensures t == Overwrite(s, i, w)
  {
    var r := Overwrite(s, i, w);
    forall j | 0 <= j < |s|
      ensures t[j] == r[j]
    {
      if i <= j < i + |w| {
        assert r[j] == r[i..i + |w|][j - i];
      }
    }
  }

  /** Storing `a` and then `b` right after it is storing `a + b`. */
  lemma OverwriteConcat(s: seq<byte>, i: int, a: seq<byte>, b: seq<byte>)
    requires 0 <= i && i + |a| + |b| <= |s|
    ensures Overwrite(Overwrite(s, i, a), i + |a|, b) == Overwrite(s, i, a + b)
  {
    if a == [] {
      assert a + b == b;
    } else if b == [] {
      assert a + b == a;
    } else {
      assert Overwrite(Overwrite(s, i, a), i + |a|, b) == s[..i] + (a + b) + s[i + |a| + |b|..];
    }
  }

  /** `n` copies of `b` (no copies when `n` is not positive, as a Java counting loop does). */
  function Fill(b: byte, n: int): (r: seq<byte>)
    ensures |r| == if n > 0 then n else 0
    ensures forall j :: 0 <= j < |r| ==> r[j] == b
  {
    if n <= 0 then [] else seq(n, _ => b)
  }

  // ---------------------------------------------------------------------------
  // Readers
  // ---------------------------------------------------------------------------

  /** `readByte`: the signed value of the byte at `index`. */
  function ReadByte(s: seq<byte>, index: int): (r: int)
    requires 0 <= index < |s|
    ensures -128 <= r < 128 && r % 256 == s[index]
  {
    Signed8(s[index])
  }

  /** `readShort`: the big-endian 16-bit value at `index`, as a signed `short`. */
  function ReadShort(s: seq<byte>, index: int): (r: i16)
    requires 0 <= index && index + 2 <= |s|
    ensures r % TWO_16 == ValueBE(s[index..index + 2])
  {
    ValueBE2(s[index..index + 2]);
    Signed16(s[index] as int * 256 + s[index + 1])
  }

  /** `readLittleEndianShort`: the little-endian 16-bit value at `index`, as a signed `short`. */
  function ReadLittleEndianShort(s: seq<byte>, index: int): (r: i16)
    requires 0 <= index && index + 2 <= |s|
    ensures r % TWO_16 == ValueLE(s[index..index + 2])
  {
    ValueLE2(s[index..index + 2]);
    Signed16(s[index + 1] as int * 256 + s[index])
  }

  /** `readInt`: the big-endian 32-bit value at `index`, as a signed `int`. */
  function ReadInt(s: seq<byte>, index: int): (r: i32)
    requires 0 <= index && index + 4 <= |s|
    ensures r % TWO_32 == ValueBE(s[index..index + 4])
  {
    ValueBE4(s[index..index + 4]);
    Signed32(s[index] as int * 0x100_0000 + s[index + 1] as int * 0x1_0000 + s[index + 2] as int * 0x100 + s[index + 3])
  }

  /** `readLittleEndianInt`: the little-endian 32-bit value at `index`, as a signed `int`. */
  function ReadLittleEndianInt(s: seq<byte>, index: int): (r: i32)
    requires 0 <= index && index + 4 <= |s|
    ensures r % TWO_32 == ValueLE(s[index..index + 4])
  {
    ValueLE4(s[index..index + 4]);
    Signed32(s[index + 3] as int * 0x100_0000 + s[index + 2] as int * 0x1_0000 + s[index + 1] as int * 0x100 + s[index])
  }

  /** The short readers invert the short writers. */
  lemma ShortRoundTrip(s: seq<byte>, index: int, v: i16)
    requires 0 <= index && index + 2 <= |s|
    ensures ReadShort(Overwrite(s, index, ShortBE(v)), index) == v
    ensures ReadLittleEndianShort(Overwrite(s, index, ShortLE(v)), index) == v
  {
    assert Overwrite(s, index, ShortBE(v))[index..index + 2] == ShortBE(v);
    assert Overwrite(s, index, ShortLE(v))[index..index + 2] == ShortLE(v);
  }

  /** Two `int` values with the same 32-bit pattern are equal. */
  lemma SamePattern32(a: i32, b: i32)
    requires a % TWO_32 == b % TWO_32
    ensures a == b
  {
  }

  /** The int readers invert the int writers. */
  lemma IntRoundTrip(s: seq<byte>, index: int, v: i32)
    requires 0 <= index && index + 4 <= |s|
    ensures ReadInt(Overwrite(s, index, IntBE(v)), index) == v
  {
    var w := Overwrite(s, index, IntBE(v));
    assert w[index..index + 4] == IntBE(v);
    SamePattern32(ReadInt(w, index), v);
  }

  lemma LittleEndianIntRoundTrip(s: seq<byte>, index: int, v: i32)
    requires 0 <= index && index + 4 <= |s|
    ensures ReadLittleEndianInt(Overwrite(s, index, IntLE(v)), index) == v
  {
    var w := Overwrite(s, index, IntLE(v));
    assert w[index..index + 4] == IntLE(v);
    ReadLittleEndianIntOf(w, index, v);
  }

  /** Wherever the little-endian bytes of an `int` stand, `readLittleEndianInt` reads that `int`. */
  lemma ReadLittleEndianIntOf(s: seq<byte>, index: int, v: i32)
    requires 0 <= index && index + 4 <= |s| && s[index..index + 4] == IntLE(v)
    ensures ReadLittleEndianInt(s, index) == v
  {
    SamePattern32(ReadLittleEndianInt(s, index), v);
  }

  /** Wherever the little-endian bytes of a `short` stand, `readLittleEndianShort` reads that `short`. */
  lemma ReadLittleEndianShortOf(s: seq<byte>, index: int, v: i16)
    requires 0 <= index && index + 2 <= |s| && s[index..index + 2] == ShortLE(v)
    ensures ReadLittleEndianShort(s, index) == v
  {
  }

  // ---------------------------------------------------------------------------
  // Strings: ISO-8859-1, one byte per character
  // ---------------------------------------------------------------------------

  /** ISO-8859-1 decoding: every byte becomes the character with the same code. */
  function Latin1Decode(bs: seq<byte>): (r: string)
    ensures |r| == |bs|
    ensures forall i :: 0 <= i < |bs| ==> r[i] as int == bs[i]
  {
    seq(|bs|, i requires 0 <= i < |bs| => bs[i] as char)
  }

  /**
   * `String.getBytes("ISO-8859-1")`: characters up to U+00FF become their code, every other
   * character the replacement byte '?'.
   */
  function Latin1Encode(s: string): (r: seq<byte>)
    ensures |r| == |s|
    ensures forall i :: 0 <= i < |s| ==> r[i] == if s[i] as int < 256 then s[i] as int else '?' as int
  {
    seq(|s|, i requires 0 <= i < |s| => if s[i] as int < 256 then s[i] as int else '?' as int)
  }

  /** Characters that `String.trim` removes: U+0000 to U+0020. */
  predicate IsTrimmed(c: char)
  {
    c <= ' '
  }

  function TrimStart(s: string): (r: string)
    ensures |r| <= |s| && r == s[|s| - |r|..]
    ensures forall i :: 0 <= i < |s| - |r| ==> IsTrimmed(s[i])
    ensures r != [] ==> !IsTrimmed(r[0])
  {
    if s != [] && IsTrimmed(s[0]) then TrimStart(s[1..]) else s
  }

  function TrimEnd(s: string): (r: string)
    ensures |r| <= |s| && r == s[..|r|]
    ensures forall i :: |r| <= i < |s| ==> IsTrimmed(s[i])
    ensures r != [] ==> !IsTrimmed(r[|r| - 1])
  {
    if s != [] && IsTrimmed(s[|s| - 1]) then TrimEnd(s[..|s| - 1]) else s
  }

  /** `String.trim`: drop the leading and the trailing characters up to U+0020. */
  function Trim(s: string): (r: string)
    ensures |r| <= |s|
    ensures r != [] ==> !IsTrimmed(r[0]) && !IsTrimmed(r[|r| - 1])
  {
    TrimEnd(TrimStart(s))
  }

  /** `trim` removes only blanks: what it returns stands in `s` with nothing but blanks around it. */
  lemma TrimOnlyBlanks(s: string)
    ensures TrimmedAt(s, Trim(s), |s| - |TrimStart(s)|)
  {
    var t := TrimStart(s);
    var r := TrimEnd(t);
    var a := |s| - |t|;
    assert Trim(s) == r;
    assert r == s[a..a + |r|];
    assert forall i :: 0 <= i < a ==> IsTrimmed(s[i]);
    forall i | a + |r| <= i < |s|
      ensures IsTrimmed(s[i])
    {
      assert s[i] == t[i - a];
    }
    assert TrimmedAt(s, r, a);
  }

  /** `r` is `s[a..a + |r|]` and everything of `s` around it is a trimmed character. */
  predicate TrimmedAt(s: string, r: string, a: int)
  {
    0 <= a <= |s| - |r| && r == s[a..a + |r|]
    && (forall i :: 0 <= i < a ==> IsTrimmed(s[i]))
    && (forall i :: a + |r| <= i < |s| ==> IsTrimmed(s[i]))
  }

  /** A string whose first and last characters are above U+0020 is left alone by `trim`. */
  lemma TrimKeeps(s: string)
    requires s != [] ==> !IsTrimmed(s[0]) && !IsTrimmed(s[|s| - 1])
    ensures Trim(s) == s
  {
  }

  /**
   * `readString(index, length)`: the `length` bytes at `index` decoded as ISO-8859-1, then
   * trimmed.
   */
  function ReadString(s: seq<byte>, index: int, length: int): (r: string)
    requires 0 <= index && 0 <= length && index + length <= |s|
    ensures |r| <= length
    ensures r != [] ==> r[0] as int > 0x20 && r[|r| - 1] as int > 0x20
  {
    Trim(Latin1Decode(s[index..index + length]))
  }

  /** What `readString` returns is the decoded bytes less only blanks at both ends. */
  lemma ReadStringTrims(s: seq<byte>, index: int, length: int)
    requires 0 <= index && 0 <= length && index + length <= |s|
    ensures exists a {:trigger TrimmedAt(Latin1Decode(s[index..index + length]), ReadString(s, index, length), a)} ::
              TrimmedAt(Latin1Decode(s[index..index + length]), ReadString(s, index, length), a)
  {
    var t := Latin1Decode(s[index..index + length]);
    TrimOnlyBlanks(t);
    assert TrimmedAt(t, ReadString(s, index, length), |t| - |TrimStart(t)|);
  }

  /** The bytes of a Latin-1 string with no blanks at its ends read back as that string. */
  lemma {:induction false} ReadStringOfLatin1(s: seq<byte>, index: int, t: string)
    requires forall i :: 0 <= i < |t| ==> t[i] as int < 256
    requires t != [] ==> t[0] as int > 0x20 && t[|t| - 1] as int > 0x20
    requires 0 <= index && index + |t| <= |s| && s[index..index + |t|] == Latin1Encode(t)
    ensures ReadString(s, index, |t|) == t
  {
    assert Latin1Decode(s[index..index + |t|]) == t;
    TrimKeeps(t);
  }

  /** The index of the first zero byte at or after `i`, if there is one. */
  function FirstZero(s: seq<byte>, i: nat): (r: Option<nat>)
    decreases |s| - i
    ensures r.Some? ==> i <= r.value < |s| && s[r.value] == 0
    ensures forall j :: i <= j < |s| && (r.None? || j < r.value) ==> s[j] != 0
  {
    if i >= |s| then None else if s[i] == 0 then Some(i) else FirstZero(s, i + 1)
  }

  /**
   * What `readNullTerminatedString(index)` returns: the string before the first zero byte at
   * or after `index`, read (and trimmed) by `readString`; `None` where Java runs off the array.
   */
  function NullTerminated(s: seq<byte>, index: int): (r: Option<string>)
    ensures r.Some? <==> 0 <= index && FirstZero(s, index).Some?
    ensures r.Some? ==> |r.value| <= FirstZero(s, index).value - index
  {
    if index < 0 then None
    else match FirstZero(s, index)
      case None => None
      case Some(z) => Some(ReadString(s, index, z - index))
  }

  // ---------------------------------------------------------------------------
  // Bit fields
  // ---------------------------------------------------------------------------

  /**
   * `getPartial(v, left, right)` for a value of a `width`-bit type (8 for `byte`, 16 for
   * `char` and `short`, 32 for `int`, 64 for `long`). `v` is the value after promotion to
   * `int`/`long`; the mask is `(byte) ((1 << numBits) - 1)`, where the `int` shift only uses
   * the low five bits of `numBits` and the cast keeps eight bits, so that from eight bits on
   * the mask is -1 (no masking) and for 32 or 64 bits it is 0.
   */
  function GetPartial(v: int, width: nat, left: int, right: int): (r: int)
    requires width == 8 || width == 16 || width == 32 || width == 64
    requires 0 <= right <= left < width
    ensures var k := (left - right + 1) % 32; k < 8 ==> 0 <= r < Pow2(k)
  {
    var k := (left - right + 1) % 32;
    var shifted := v / Pow2(right);
    if k >= 8 then shifted else shifted % Pow2(k)
  }

  /**
   * For fields of at most seven bits, `getPartial` is the unsigned value of bits `right..left`
   * (bit 0 the least significant) of the two's-complement representation of `v`.
   */
  lemma GetPartialIsBitField(v: int, width: nat, left: int, right: int)
    requires width == 8 || width == 16 || width == 32 || width == 64
    requires 0 <= right <= left < width && left - right + 1 <= 7
    ensures GetPartial(v, width, left, right) == ((v % Pow2(width)) / Pow2(right)) % Pow2(left - right + 1)
  {
    var n: nat := left - right + 1;
    var above: nat := width - right;
    var spare: nat := above - n;
    GetPartialNarrow(v, width, left, right);
    Pow2Sum(right, above, width);
    Pow2Sum(n, spare, above);
    FieldOfRemainder(v, Pow2(right), Pow2(above), Pow2(n), Pow2(spare));
  }

  /** Below eight bits the field is masked: the shifted value modulo 2^n. */
  lemma GetPartialNarrow(v: int, width: nat, left: int, right: int)
    requires width == 8 || width == 16 || width == 32 || width == 64
    requires 0 <= right <= left < width && left - right + 1 <= 7
    ensures GetPartial(v, width, left, right) == (v / Pow2(right)) % Pow2(left - right + 1)
  {
    var n := left - right + 1;
    DivModUnique(n, 32, 0, n);
  }

  /** Bits below P * Q do not depend on the multiple of P * Q removed by the remainder. */
  lemma FieldOfRemainder(v: int, P: int, Q: int, N: int, M: int)
    requires P > 0 && N > 0 && M > 0 && Q == N * M
    ensures (v / P) % N == ((v % (P * Q)) / P) % N
  {
    var t, u := v / (P * Q), v % (P * Q);
    assert v == (P * Q) * t + u;
    DivOfMultiple(t, u, P, Q);
    assert Q * t == N * (M * t) by {
      MulAssoc(N, M, t);
    }
    ModOfMultiple(M * t, u / P, N);
  }

  lemma MulAssoc(a: int, b: int, c: int)
    ensures (a * b) * c == a * (b * c)
  {
  }

  /** Dividing by P a number of the form (P * Q) * t + u. */
  lemma DivOfMultiple(t: int, u: int, P: int, Q: int)
    requires P > 0 && Q > 0
    ensures ((P * Q) * t + u) / P == Q * t + u / P
  {
    var v := (P * Q) * t + u;
    assert v == P * (Q * t + u / P) + u % P by {
      assert (P * Q) * t == P * (Q * t);
      assert u == P * (u / P) + u % P;
    }
    DivModUnique(v, P, Q * t + u / P, u % P);
  }

  /** Adding a multiple of N does not change the remainder modulo N. */
  lemma ModOfMultiple(k: int, x: int, N: int)
    requires N > 0
    ensures (N * k + x) % N == x % N
  {
    assert N * k + x == N * (k + x / N) + x % N by {
      assert x == N * (x / N) + x % N;
    }
    DivModUnique(N * k + x, N, k + x / N, x % N);
  }

  /**
   * From eight bits on (the width taken modulo 32, as the `int` shift does) nothing is masked:
   * the result is the shifted value itself, sign and all, so a field starting at bit 0 is the
   * value unchanged and a negative byte stays negative.
   */
  lemma GetPartialEightBitsUnmasked(v: int, width: nat, left: int, right: int)
    requires width == 8 || width == 16 || width == 32 || width == 64
    requires 0 <= right <= left < width && (left - right + 1) % 32 >= 8
    ensures GetPartial(v, width, left, right) == v / Pow2(right)
    ensures right == 0 ==> GetPartial(v, width, left, right) == v
    ensures v < 0 ==> GetPartial(v, width, left, right) < 0
  {
    assert Pow2(0) == 1;
    if v < 0 {
      NegativeQuotient(v, Pow2(right));
    }
  }

  /** Dividing a negative value by a positive one, rounding down, stays negative. */
  lemma NegativeQuotient(v: int, d: int)
    requires d > 0 && v < 0
    ensures v / d < 0
  {
    assert v == d * (v / d) + v % d && 0 <= v % d;
  }

  // ---------------------------------------------------------------------------
  // Pointer movement
  // ---------------------------------------------------------------------------

  /** Where `decrementPointer` leaves a pointer as written: one further on, unless it is 0. */
  function DecrementAsWritten(p: i32): (q: i32)
    ensures p == 0 ==> q == 0
    ensures 0 < p < 0x7FFF_FFFF ==> q == p + 1
  {
    if p != 0 then Wrap32(p + 1) else 0
  }

  /** What `decrementPointer` evidently means: one back, unless it is 0. */
  function Decrement(p: i32): (q: i32)
    ensures p == 0 ==> q == 0
    ensures p > 0 ==> 0 <= q == p - 1
  {
    if p != 0 then Wrap32(p - 1) else 0
  }

  /** As written, a decrement after an increment leaves the pointer two on, not where it was. */
  lemma DecrementAsWrittenAfterIncrement(p: i32)
    requires 0 <= p < 0x7FFF_FFFE
    ensures DecrementAsWritten(Wrap32(p + 1)) == p + 2
  {
  }

  /** The intended decrement and `incrementPointer` undo each other. */
  lemma DecrementUndoesIncrement(p: i32)
    requires 0 <= p < 0x7FFF_FFFF
    ensures Decrement(Wrap32(p + 1)) == p
    ensures p > 0 ==> Wrap32(Decrement(p) + 1) == p
  {
  }

  /**
   * As written, `ByteArray(int[])` over a non-empty array leaves the pointer past the end of
   * its own array, at twice its length: the next add at the pointer throws.
   */
  method IntsPointerPastEnd(ints: seq<i32>) returns (b: ByteArray)
    requires 0 < |ints| < 0x4000_0000
    ensures b.arr.Length == |ints| && b.pointer == 2 * |ints|
    ensures b.pointer > b.arr.Length
  {
    b := new ByteArray.OfInts(ints);
  }

  // ---------------------------------------------------------------------------
  // The buffer
  // ---------------------------------------------------------------------------

  /** `ByteArray`: the backing array `m_array` and the insertion pointer `m_pointer`. */
  class ByteArray {
    var arr: array<byte>
    var pointer: i32

    /** A Java array has at most 2^31 - 1 elements. */
    predicate Valid()
      reads this
    {
      arr.Length < 0x8000_0000
    }

    /** `ByteArray(int size)`: a zero-filled array of `size` bytes, pointer at 0. */
    constructor OfSize(size: i32)
      requires size >= 0
      ensures Valid() && fresh(arr)
      ensures arr[..] == Fill(0, size) && pointer == 0
    {
      arr := new byte[size](_ => 0);
      pointer := 0;
    }

    /** `ByteArray(byte[])`: a copy of the bytes, the pointer after them. */
    constructor OfBytes(bytes: seq<byte>)
      requires |bytes| < 0x8000_0000
      ensures Valid() && fresh(arr)
      ensures arr[..] == bytes && pointer == |bytes|
    {
      arr := new byte[|bytes|](i requires 0 <= i < |bytes| => bytes[i]);
      pointer := |bytes|;
    }

    /**
     * `ByteArray(int[])`: the low byte of every int; `addByteArray(int[])` advances the
     * pointer once per element while copying and then once more by the length, so the
     * pointer ends at twice the length.
     */
    constructor OfInts(ints: seq<i32>)
      requires |ints| < 0x8000_0000
      ensures Valid() && fresh(arr)
      ensures arr[..] == LowBytes(ints) && pointer == Wrap32(2 * |ints|)
    {
      arr := new byte[|ints|](i requires 0 <= i < |ints| => ints[i] % 256);
      pointer := Wrap32(2 * |ints|);
    }

    /** `size()`. */
    function Size(): (n: int)
      reads this
      ensures n == arr.Length
    {
      arr.Length
    }

    /** `getByteArray()`: the backing array itself, not a copy. */
    method GetByteArray() returns (a: array<byte>)
      ensures a == arr
    {
      a := arr;
    }

    /** `growArray(newSize)`: the old bytes followed by zeros; the pointer is not moved. */
    method GrowArray(newSize: i32)
      requires Valid() && newSize >= arr.Length
      modifies this
      ensures Valid() && fresh(arr) && pointer == old(pointer)
      ensures arr[..] == old(arr[..]) + Fill(0, newSize - old(arr.Length))
    {
      var bigger := new byte[newSize](_ => 0);
      forall i | 0 <= i < arr.Length {
        bigger[i] := arr[i];
      }
      arr := bigger;
    }

    /** `shrinkArray(newSize)`: the first `newSize` bytes; the pointer is not moved. */
    method ShrinkArray(newSize: i32)
      requires Valid() && 0 <= newSize <= arr.Length
      modifies this
      ensures Valid() && fresh(arr) && pointer == old(pointer)
      ensures arr[..] == old(arr[..newSize])
    {
      var smaller := new byte[newSize](_ => 0);
      forall i | 0 <= i < newSize {
        smaller[i] := arr[i];
      }
      arr := smaller;
    }

    /** `setPointerIndex`. */
    method SetPointerIndex(newPointer: i32)
      modifies this`pointer
      ensures pointer == newPointer
    {
      pointer := newPointer;
    }

    /** `getPointerIndex`. */
    function GetPointerIndex(): (p: i32)
      reads this
      ensures p == pointer
    {
      pointer
    }

    /** `incrementPointer`: `m_pointer++`, with `int` wrap-around. */
    method IncrementPointer()
      modifies this`pointer
      ensures pointer == Wrap32(old(pointer) + 1)
    {
      pointer := Wrap32(pointer + 1);
    }

    /** `decrementPointer`: as written it INCREMENTS a non-zero pointer and leaves 0 alone. */
    method DecrementPointer()
      modifies this`pointer
      ensures pointer == DecrementAsWritten(old(pointer))
    {
      if pointer != 0 {
        pointer := Wrap32(pointer + 1);
      }
    }

    /** `decrementPointer` as evidently intended: `m_pointer--` when the pointer is not 0. */
    method DecrementPointerIntended()
      modifies this`pointer
      ensures pointer == Decrement(old(pointer))
    {
      if pointer != 0 {
        pointer := Wrap32(pointer - 1);
      }
    }

    /** Store `w` from `index` on (the element stores and `System.arraycopy` of the writers). */
    method Store(index: int, w: seq<byte>)
      requires w == [] || (0 <= index && index + |w| <= arr.Length)
      modifies arr
      ensures arr[..] == Overwrite(old(arr[..]), index, w)
    {
      forall i | index <= i < index + |w| {
        arr[i] := w[i - index];
      }
      OverwriteElements(old(arr[..]), index, w, arr[..]);
    }

    /** A sequential writer: store `w` at the pointer and move the pointer past it. */
    method Append(w: seq<byte>)
      requires Valid() && (w == [] || (0 <= pointer && pointer + |w| <= arr.Length))
      modifies this`pointer, arr
      ensures pointer == old(pointer) + |w|
      ensures arr[..] == Overwrite(old(arr[..]), old(pointer), w)
    {
      Store(pointer, w);
      pointer := pointer + |w|;
    }

    // ***** byte, short, int and long writers *****

    method AddByte(b: byte)
      requires Valid() && 0 <= pointer && pointer + 1 <= arr.Length
      modifies this`pointer, arr
      ensures pointer == old(pointer) + 1
      ensures arr[..] == Overwrite(old(arr[..]), old(pointer), [b])
    {
      Append([b]);
    }

    method AddByteAt(b: byte, index: i32)
      requires 0 <= index < arr.Length
      modifies arr
      ensures arr[..] == Overwrite(old(arr[..]), index, [b])
    {
      Store(index, [b]);
    }

    /** `addByte(int)`: the low eight bits of the int. */
    method AddIntByte(v: i32)
      requires Valid() && 0 <= pointer && pointer + 1 <= arr.Length
      modifies this`pointer, arr
      ensures pointer == old(pointer) + 1
      ensures arr[..] == Overwrite(old(arr[..]), old(pointer), [ByteOf(v, 0)])
    {
      Append([v % 256]);
    }

    method AddIntByteAt(v: i32, index: i32)
      requires 0 <= index < arr.Length
      modifies arr
      ensures arr[..] == Overwrite(old(arr[..]), index, [ByteOf(v, 0)])
    {
      Store(index, [v % 256]);
    }

    method AddShort(v: i16)
      requires Valid() && 0 <= pointer && pointer + 2 <= arr.Length
      modifies this`pointer, arr
      ensures pointer == old(pointer) + 2
      ensures arr[..] == Overwrite(old(arr[..]), old(pointer), ShortBE(v))
    {
      Append(ShortBE(v));
    }

    method AddShortAt(v: i16, index: i32)
      requires 0 <= index && index + 2 <= arr.Length
      modifies arr
      ensures arr[..] == Overwrite(old(arr[..]), index, ShortBE(v))
    {
      Store(index, ShortBE(v));
    }

    method AddLittleEndianShort(v: i16)
      requires Valid() && 0 <= pointer && pointer + 2 <= arr.Length
      modifies this`pointer, arr
      ensures pointer == old(pointer) + 2
      ensures arr[..] == Overwrite(old(arr[..]), old(pointer), ShortLE(v))
    {
      Append(ShortLE(v));
    }

    method AddLittleEndianShortAt(v: i16, index: i32)
      requires 0 <= index && index + 2 <= arr.Length
      modifies arr
      ensures arr[..] == Overwrite(old(arr[..]), index, ShortLE(v))
    {
      Store(index, ShortLE(v));
    }

    method AddInt(v: i32)
      requires Valid() && 0 <= pointer && pointer + 4 <= arr.Length
      modifies this`pointer, arr
      ensures pointer == old(pointer) + 4
      ensures arr[..] == Overwrite(old(arr[..]), old(pointer), IntBE(v))
    {
      Append(IntBE(v));
    }

    method AddIntAt(v: i32, index: i32)
      requires 0 <= index && index + 4 <= arr.Length
      modifies arr
      ensures arr[..] == Overwrite(old(arr[..]), index, IntBE(v))
    {
      Store(index, IntBE(v));
    }

    method AddLittleEndianInt(v: i32)
      requires Valid() && 0 <= pointer && pointer + 4 <= arr.Length
      modifies this`pointer, arr
      ensures pointer == old(pointer) + 4
      ensures arr[..] == Overwrite(old(arr[..]), old(pointer), IntLE(v))
    {
      Append(IntLE(v));
    }

    method AddLittleEndianIntAt(v: i32, index: i32)
      requires 0 <= index && index + 4 <= arr.Length
      modifies arr
      ensures arr[..] == Overwrite(old(arr[..]), index, IntLE(v))
    {
      Store(index, IntLE(v));
    }

    method AddLong(v: i64)
      requires Valid() && 0 <= pointer && pointer + 8 <= arr.Length
      modifies this`pointer, arr
      ensures pointer == old(pointer) + 8
      ensures arr[..] == Overwrite(old(arr[..]), old(pointer), LongBE(v))
    {
      Append(LongBE(v));
    }

    method AddLongAt(v: i64, index: i32)
      requires 0 <= index && index + 8 <= arr.Length
      modifies arr
      ensures arr[..] == Overwrite(old(arr[..]), index, LongBE(v))
    {
      Store(index, LongBE(v));
    }

    method AddLittleEndianLong(v: i64)
      requires Valid() && 0 <= pointer && pointer + 8 <= arr.Length
      modifies this`pointer, arr
      ensures pointer == old(pointer) + 8
      ensures arr[..] == Overwrite(old(arr[..]), old(pointer), LongLE(v))
    {
      Append(LongLE(v));
    }

    method AddLittleEndianLongAt(v: i64, index: i32)
      requires 0 <= index && index + 8 <= arr.Length
      modifies arr
      ensures arr[..] == Overwrite(old(arr[..]), index, LongLE(v))
    {
      Store(index, LongLE(v));
    }

    // ***** strings *****

    /** `addString(str)`: the ISO-8859-1 bytes of `str` at the pointer. */
    method AddString(str: string)
      requires Valid() && 0 <= pointer && pointer + |str| <= arr.Length
      modifies this`pointer, arr
      ensures pointer == old(pointer) + |str|
      ensures arr[..] == Overwrite(old(arr[..]), old(pointer), Latin1Encode(str))
    {
      Append(Latin1Encode(str));
    }

    /** `addString(str, index)`, with the platform charset taken to be a one-byte Latin-1 charset. */
    method AddStringAt(str: string, index: i32)
      requires 0 <= index && index + |str| <= arr.Length
      modifies arr
      ensures arr[..] == Overwrite(old(arr[..]), index, Latin1Encode(str))
    {
      Store(index, Latin1Encode(str));
    }

    /**
     * `addPaddedString(str, totalLength)`: the bytes of `str` followed by zeros up to
     * `totalLength` bytes, or `totalLength` zeros when `str` is null.
     */
    method AddPaddedString(str: Option<string>, totalLength: i32)
      requires Valid()
      requires str.None? ==> totalLength > 0 ==> 0 <= pointer && pointer + totalLength <= arr.Length
      requires str.Some? ==> 0 <= pointer && pointer + |str.value| + |Fill(0, totalLength - |str.value|)| <= arr.Length
      modifies this`pointer, arr
      ensures var w := PaddedBytes(str, totalLength);
              pointer == old(pointer) + |w| && arr[..] == Overwrite(old(arr[..]), old(pointer), w)
    {
      if str.None? {
        RepeatAddInt(0, totalLength);
      } else {
        var s := str.value;
        ghost var p0, a0 := pointer, arr[..];
        Append(Latin1Encode(s));
        if totalLength > |s| {
          RepeatAddInt(0, totalLength - |s|);
        }
        OverwriteConcat(a0, p0, Latin1Encode(s), Fill(0, totalLength - |s|));
      }
    }

    /**
     * `addPaddedString(str, index, totalLength)`: as written, the zero padding is also
     * stored from `index` on, over the string's own bytes.
     */
    method AddPaddedStringAt(str: Option<string>, index: i32, totalLength: i32)
      requires str.None? ==> totalLength > 0 ==> 0 <= index && index + totalLength <= arr.Length
      requires str.Some? ==> 0 <= index && index + |str.value| <= arr.Length
                             && index + |Fill(0, totalLength - |str.value|)| <= arr.Length
      modifies arr
      ensures str.None? ==> arr[..] == Overwrite(old(arr[..]), index, Fill(0, totalLength))
      ensures str.Some? ==> arr[..] == Overwrite(Overwrite(old(arr[..]), index, Latin1Encode(str.value)),
                                                 index, Fill(0, totalLength - |str.value|))
    {
      if str.None? {
        RepeatAddIntAt(0, totalLength, index);
      } else {
        Store(index, Latin1Encode(str.value));
        if totalLength > |str.value| {
          RepeatAddIntAt(0, totalLength - |str.value|, index);
        }
      }
    }

    // ***** byte arrays *****

    /** `addByteArray(ByteArray)`: the whole backing array of `other` at the pointer. */
    method AddByteArray(other: ByteArray)
      requires Valid() && 0 <= pointer && pointer + other.arr.Length <= arr.Length
      modifies this`pointer, arr
      ensures pointer == old(pointer) + old(other.arr.Length)
      ensures arr[..] == Overwrite(old(arr[..]), old(pointer), old(other.arr[..]))
    {
      Append(other.arr[..]);
    }

    method AddByteArrayAt(other: ByteArray, index: i32)
      requires 0 <= index && index + other.arr.Length <= arr.Length
      modifies arr
      ensures arr[..] == Overwrite(old(arr[..]), index, old(other.arr[..]))
    {
      Store(index, other.arr[..]);
    }

    /** `addByteArray(byte[])`. */
    method AddBytes(bytes: seq<byte>)
      requires Valid() && 0 <= pointer && pointer + |bytes| <= arr.Length
      modifies this`pointer, arr
      ensures pointer == old(pointer) + |bytes|
      ensures arr[..] == Overwrite(old(arr[..]), old(pointer), bytes)
    {
      Append(bytes);
    }

    method AddBytesAt(bytes: seq<byte>, index: i32)
      requires 0 <= index && index + |bytes| <= arr.Length
      modifies arr
      ensures arr[..] == Overwrite(old(arr[..]), index, bytes)
    {
      Store(index, bytes);
    }

    /**
     * `addByteArray(int[])`: the low byte of every int at the pointer; the pointer moves
     * once per element in the loop and then once more by the length.
     */
    method AddInts(ints: seq<i32>)
      requires Valid() && (ints == [] || (0 <= pointer && pointer + |ints| <= arr.Length))
      modifies this`pointer, arr
      ensures pointer == Wrap32(old(pointer) + 2 * |ints|)
      ensures arr[..] == Overwrite(old(arr[..]), old(pointer), LowBytes(ints))
    {
      ghost var p0 := pointer;
      var i := 0;
      while i < |ints|
        invariant 0 <= i <= |ints| && pointer == p0 + i
        invariant forall j :: 0 <= j < arr.Length ==>
                    arr[j] == if p0 <= j < p0 + i then ints[j - p0] % 256 else old(arr[j])
      {
        arr[pointer] := ints[i] % 256;
        pointer := pointer + 1;
        i := i + 1;
      }
      pointer := Wrap32(pointer + |ints|);
      OverwriteElements(old(arr[..]), p0, LowBytes(ints), arr[..]);
    }

    /**
     * `addByteArray(int[])` as evidently intended: the pointer moves once per element, so it
     * ends right after the bytes written and the next add continues there.
     */
    method AddIntsIntended(ints: seq<i32>)
      requires Valid() && (ints == [] || (0 <= pointer && pointer + |ints| <= arr.Length))
      modifies this`pointer, arr
      ensures pointer == old(pointer) + |ints|
      ensures arr[..] == Overwrite(old(arr[..]), old(pointer), LowBytes(ints))
    {
      var p0 := pointer;
      AddInts(ints);
      pointer := p0 + |ints|;
    }

    method AddIntsAt(ints: seq<i32>, index: i32)
      requires ints == [] || (0 <= index && index + |ints| <= arr.Length)
      modifies arr
      ensures arr[..] == Overwrite(old(arr[..]), index, LowBytes(ints))
    {
      var i := 0;
      while i < |ints|
        invariant 0 <= i <= |ints|
        invariant forall j :: 0 <= j < arr.Length ==>
                    arr[j] == if index <= j < index + i then ints[j - index] % 256 else old(arr[j])
      {
        arr[index + i] := ints[i] % 256;
        i := i + 1;
      }
      OverwriteElements(old(arr[..]), index, LowBytes(ints), arr[..]);
    }

    /** `addPartialByteArray(ByteArray, sourceIndex, length)`. */
    method AddPartialByteArray(other: ByteArray, sourceIndex: i32, length: i32)
      requires Valid() && 0 <= pointer && 0 <= sourceIndex && 0 <= length
      requires sourceIndex + length <= other.arr.Length && pointer + length <= arr.Length
      modifies this`pointer, arr
      ensures pointer == old(pointer) + length
      ensures arr[..] == Overwrite(old(arr[..]), old(pointer), old(other.arr[sourceIndex..sourceIndex + length]))
    {
      Append(other.arr[sourceIndex..sourceIndex + length]);
    }

    /** `addPartialByteArray(ByteArray, destIndex, sourceIndex, length)`. */
    method AddPartialByteArrayAt(other: ByteArray, destIndex: i32, sourceIndex: i32, length: i32)
      requires 0 <= destIndex && 0 <= sourceIndex && 0 <= length
      requires sourceIndex + length <= other.arr.Length && destIndex + length <= arr.Length
      modifies arr
      ensures arr[..] == Overwrite(old(arr[..]), destIndex, old(other.arr[sourceIndex..sourceIndex + length]))
    {
      Store(destIndex, other.arr[sourceIndex..sourceIndex + length]);
    }

    /** `addPartialByteArray(byte[], sourceIndex, length)`. */
    method AddPartialBytes(bytes: seq<byte>, sourceIndex: i32, length: i32)
      requires Valid() && 0 <= pointer && 0 <= sourceIndex && 0 <= length
      requires sourceIndex + length <= |bytes| && pointer + length <= arr.Length
      modifies this`pointer, arr
      ensures pointer == old(pointer) + length
      ensures arr[..] == Overwrite(old(arr[..]), old(pointer), bytes[sourceIndex..sourceIndex + length])
    {
      Append(bytes[sourceIndex..sourceIndex + length]);
    }

    /** `addPartialByteArray(byte[], destIndex, sourceIndex, length)`. */
    method AddPartialBytesAt(bytes: seq<byte>, destIndex: i32, sourceIndex: i32, length: i32)
      requires 0 <= destIndex && 0 <= sourceIndex && 0 <= length
      requires sourceIndex + length <= |bytes| && destIndex + length <= arr.Length
      modifies arr
      ensures arr[..] == Overwrite(old(arr[..]), destIndex, bytes[sourceIndex..sourceIndex + length])
    {
      Store(destIndex, bytes[sourceIndex..sourceIndex + length]);
    }

    /** `addPartialByteArray(int[], sourceIndex, length)`: the pointer moves once per element. */
    method AddPartialInts(ints: seq<i32>, sourceIndex: i32, length: i32)
      requires Valid()
      requires length > 0 ==> 0 <= sourceIndex && sourceIndex + length <= |ints|
                              && 0 <= pointer && pointer + length <= arr.Length
      modifies this`pointer, arr
      ensures var w := if length > 0 then LowBytes(ints[sourceIndex..sourceIndex + length]) else [];
              pointer == old(pointer) + |w| && arr[..] == Overwrite(old(arr[..]), old(pointer), w)
    {
      ghost var p0 := pointer;
      var i := 0;
      while i < length
        invariant 0 <= i <= if length > 0 then length else 0
        invariant pointer == p0 + i
        invariant forall j :: 0 <= j < arr.Length ==>
                    arr[j] == if p0 <= j < p0 + i then ints[sourceIndex + j - p0] % 256 else old(arr[j])
      {
        arr[pointer] := ints[i + sourceIndex] % 256;
        pointer := pointer + 1;
        i := i + 1;
      }
      ghost var w := if length > 0 then LowBytes(ints[sourceIndex..sourceIndex + length]) else [];
      OverwriteElements(old(arr[..]), p0, w, arr[..]);
    }

    /** `addPartialByteArray(int[], destIndex, sourceIndex, length)`. */
    method AddPartialIntsAt(ints: seq<i32>, destIndex: i32, sourceIndex: i32, length: i32)
      requires length > 0 ==> 0 <= sourceIndex && sourceIndex + length <= |ints|
                              && 0 <= destIndex && destIndex + length <= arr.Length
      modifies arr
      ensures var w := if length > 0 then LowBytes(ints[sourceIndex..sourceIndex + length]) else [];
              arr[..] == Overwrite(old(arr[..]), destIndex, w)
    {
      var i := 0;
      while i < length
        invariant 0 <= i <= if length > 0 then length else 0
        invariant forall j :: 0 <= j < arr.Length ==>
                    arr[j] == if destIndex <= j < destIndex + i then ints[sourceIndex + j - destIndex] % 256 else old(arr[j])
      {
        arr[destIndex + i] := ints[i + sourceIndex] % 256;
        i := i + 1;
      }
      ghost var w := if length > 0 then LowBytes(ints[sourceIndex..sourceIndex + length]) else [];
      OverwriteElements(old(arr[..]), destIndex, w, arr[..]);
    }

    // ***** repeatAdd *****

    /** `repeatAdd(byte, number)`: `number` copies of the byte at the pointer. */
    method RepeatAdd(b: byte, number: i32)
      requires Valid() && (number > 0 ==> 0 <= pointer && pointer + number <= arr.Length)
      modifies this`pointer, arr
      ensures pointer == old(pointer) + |Fill(b, number)|
      ensures arr[..] == Overwrite(old(arr[..]), old(pointer), Fill(b, number))
    {
      ghost var p0 := pointer;
      var i := 0;
      while i < number
        invariant 0 <= i <= |Fill(b, number)| && pointer == p0 + i
        invariant forall j :: 0 <= j < arr.Length ==> arr[j] == if p0 <= j < p0 + i then b else old(arr[j])
      {
        arr[pointer] := b;
        pointer := pointer + 1;
        i := i + 1;
      }
      OverwriteElements(old(arr[..]), p0, Fill(b, number), arr[..]);
    }

    /** `repeatAdd(byte, number, index)`. */
    method RepeatAddAt(b: byte, number: i32, index: i32)
      requires number > 0 ==> 0 <= index && index + number <= arr.Length
      modifies arr
      ensures arr[..] == Overwrite(old(arr[..]), index, Fill(b, number))
    {
      var i := 0;
      while i < number
        invariant 0 <= i <= |Fill(b, number)|
        invariant forall j :: 0 <= j < arr.Length ==> arr[j] == if index <= j < index + i then b else old(arr[j])
      {
        arr[index + i] := b;
        i := i + 1;
      }
      OverwriteElements(old(arr[..]), index, Fill(b, number), arr[..]);
    }

    /** `repeatAdd(int, number)`: the low byte of the int, `number` times. */
    method RepeatAddInt(v: i32, number: i32)
      requires Valid() && (number > 0 ==> 0 <= pointer && pointer + number <= arr.Length)
      modifies this`pointer, arr
      ensures pointer == old(pointer) + |Fill(ByteOf(v, 0), number)|
      ensures arr[..] == Overwrite(old(arr[..]), old(pointer), Fill(ByteOf(v, 0), number))
    {
      RepeatAdd(v % 256, number);
    }

    /** `repeatAdd(int, number, index)`. */
    method RepeatAddIntAt(v: i32, number: i32, index: i32)
      requires number > 0 ==> 0 <= index && index + number <= arr.Length
      modifies arr
      ensures arr[..] == Overwrite(old(arr[..]), index, Fill(ByteOf(v, 0), number))
    {
      RepeatAddAt(v % 256, number, index);
    }

    // ***** readers that are loops or allocate *****

    /**
     * `readNullTerminatedString(index)`: the string read up to the first zero byte at or after
     * `index` (trimmed, like every `readString`); `None` where Java runs off the array.
     */
    method ReadNullTerminatedString(index: int) returns (r: Option<string>)
      ensures r == NullTerminated(arr[..], index)
    {
      if index < 0 || index >= arr.Length {
        return None;
      }
      var i := 0;
      while index + i < arr.Length && arr[index + i] != 0
        invariant 0 <= i && index + i <= arr.Length
        invariant FirstZero(arr[..], index) == FirstZero(arr[..], index + i)
      {
        i := i + 1;
      }
      if index + i >= arr.Length {
        return None;
      }
      r := Some(ReadString(arr[..], index, i));
    }

    /**
     * `readByteArray(begin, end)`: a new buffer holding bytes `begin..end`, both inclusive. With
     * `begin == end + 1` the copy loop never runs, so any `begin` gives an empty buffer.
     */
    method ReadByteArray(begin: i32, end: i32) returns (b: ByteArray)
      requires Valid() && (begin == end + 1 || 0 <= begin <= end + 1 <= arr.Length)
      ensures fresh(b) && b.Valid() && fresh(b.arr)
      ensures b.arr.Length == end - begin + 1 && b.pointer == end - begin + 1
      ensures forall j :: 0 <= j < b.arr.Length ==> b.arr[j] == arr[begin + j]
    {
      var bytes := new byte[end - begin + 1](_ => 0);
      var i := 0;
      while i < end + 1 - begin
        invariant 0 <= i <= end + 1 - begin
        invariant forall j :: 0 <= j < i ==> bytes[j] == arr[begin + j]
      {
        bytes[i] := arr[i + begin];
        i := i + 1;
      }
      b := new ByteArray.OfBytes(bytes[..]);
    }
  }

  /** The low eight bits of every int. */
  function LowBytes(ints: seq<i32>): (r: seq<byte>)
    ensures |r| == |ints|
    ensures forall i :: 0 <= i < |ints| ==> r[i] == ints[i] % 256
  {
    seq(|ints|, i requires 0 <= i < |ints| => ints[i] % 256)
  }

  /** The bytes that the sequential `addPaddedString` stores. */
  function PaddedBytes(str: Option<string>, totalLength: int): (r: seq<byte>)
    ensures str.None? ==> r == Fill(0, totalLength)
    ensures str.Some? ==> |r| == |str.value| + |Fill(0, totalLength - |str.value|)|
                          && r[..|str.value|] == Latin1Encode(str.value)
                          && forall j :: |str.value| <= j < |r| ==> r[j] == 0
  {
    match str
    case None => Fill(0, totalLength)
    case Some(s) => Latin1Encode(s) + Fill(0, totalLength - |s|)
  }

  /** `toByteArray(int[])`: a new array with the low byte of every int. */
  method ToByteArray(ints: seq<i32>) returns (a: array<byte>)
    ensures fresh(a) && a[..] == LowBytes(ints)
  {
    a := new byte[|ints|](_ => 0);
    var i := 0;
    while i < |ints|
      invariant 0 <= i <= |ints|
      invariant forall j :: 0 <= j < i ==> a[j] == ints[j] % 256
    {
      a[i] := ints[i] % 256;
      i := i + 1;
    }
  }
}
