/** Java's fixed-width integer types and the arithmetic of them that the codec relies on. */
module JavaInts {

  /** A Java `byte`, held as its bit pattern 0..255; `Signed8` gives the value Java sees. */
  type byte = b: int | 0 <= b < 256

  /** Java `short`, `int` and `long` values. */
  type i16 = v: int | -0x8000 <= v < 0x8000
  type i32 = v: int | -0x8000_0000 <= v < 0x8000_0000
  type i64 = v: int | -0x8000_0000_0000_0000 <= v < 0x8000_0000_0000_0000

  const TWO_16: int := 0x1_0000
  const TWO_32: int := 0x1_0000_0000

  /** Java `int` arithmetic: the result of `+` wraps around modulo 2^32. */
  function Wrap32(v: int): (r: i32)
    ensures (r - v) % TWO_32 == 0
    ensures -0x8000_0000 <= v < 0x8000_0000 ==> r == v
  {
    var m := v % TWO_32;
    if m < 0x8000_0000 then m else m - TWO_32
  }

  /** The value of a byte as Java sees it (two's complement). */
  function Signed8(b: byte): (r: int)
    ensures -128 <= r < 128
    ensures r % 256 == b
  {
    if b < 128 then b else b - 256
  }

  /** The `short` whose bit pattern is `u` (the cast `(short) u` of an unsigned 16-bit value). */
  function Signed16(u: int): (r: i16)
    requires 0 <= u < TWO_16
    ensures r % TWO_16 == u
  {
    if u < 0x8000 then u else u - TWO_16
  }

  /** The `int` whose bit pattern is `u`. */
  function Signed32(u: int): (r: i32)
    requires 0 <= u < TWO_32
    ensures r % TWO_32 == u
  {
    if u < 0x8000_0000 then u else u - TWO_32
  }

  function Pow2(n: nat): (r: nat)
    ensures r >= 1
  {
    if n == 0 then 1 else 2 * Pow2(n - 1)
  }

  lemma {:induction false} Pow2Add(a: nat, b: nat)
    ensures Pow2(a + b) == Pow2(a) * Pow2(b)
  {
    if a > 0 {
      Pow2Add(a - 1, b);
    }
  }

  lemma Pow2Sum(a: nat, b: nat, c: nat)
    requires a + b == c
    ensures Pow2(c) == Pow2(a) * Pow2(b)
  {
    Pow2Add(a, b);
  }

  /** 2^(8k): the weight of byte `k` of a 64-bit value (k = 8 gives 2^64). */
  function Radix(k: nat): (r: nat)
    requires k <= 8
    ensures r >= 1
    ensures k > 0 ==> r == 256 * Radix(k - 1)
  {
    match k
    case 0 => 1
    case 1 => 0x100
    case 2 => 0x1_0000
    case 3 => 0x100_0000
    case 4 => 0x1_0000_0000
    case 5 => 0x100_0000_0000
    case 6 => 0x1_0000_0000_0000
    case 7 => 0x100_0000_0000_0000
    case _ => 0x1_0000_0000_0000_0000
  }

  /**
   * Byte `k` (0 = least significant) of the two's-complement representation of `v`,
   * which is what Java computes as `(byte) ((v >> (8 * k)) & 0xff)`: an arithmetic
   * right shift is a division rounding down, and `& 0xff` the non-negative remainder.
   */
  function ByteOf(v: int, k: nat): (r: byte)
    requires k < 8
    ensures k == 0 ==> r == v % 256
  {
    (v / Radix(k)) % 256
  }

  /** Java's `len % 4` on an `int`: the remainder takes the sign of the dividend. */
  function JavaRem4(a: int): (r: int)
    ensures -4 < r < 4
    ensures a >= 0 ==> r == a % 4
    ensures (a - r) % 4 == 0
    ensures r != 0 ==> (r < 0 <==> a < 0)
  {
    if a >= 0 then a % 4 else -((-a) % 4)
  }

  /** Euclidean division is unique: a quotient and remainder in range are THE quotient and remainder. */
  lemma DivModUnique(v: int, d: int, q: int, r: int)
    requires d > 0 && v == d * q + r && 0 <= r < d
    ensures v / d == q && v % d == r
  {
    var q' := v / d;
    var r' := v % d;
    assert d * (q - q') == r' - r;
    if q != q' {
      MulAwayFromZero(d, q - q');
      assert false;
    }
  }

  lemma {:induction false} MulAwayFromZero(d: int, t: int)
    requires d > 0 && t != 0
    ensures d * t >= d || d * t <= -d
    decreases if t > 0 then t else -t
  {
    if t > 1 {
      MulAwayFromZero(d, t - 1);
      assert d * t == d * (t - 1) + d;
    } else if t < -1 {
      MulAwayFromZero(d, t + 1);
      assert d * t == d * (t + 1) - d;
    }
  }

  /** Peeling the lowest byte off a remainder: v mod 256m = 256 * ((v / 256) mod m) + v mod 256. */
  lemma ModSplit(v: int, m: int)
    requires m > 0
    ensures v % (256 * m) == ((v / 256) % m) * 256 + v % 256
    ensures v / (256 * m) == (v / 256) / m
  {
    var q, r := v / 256, v % 256;
    var a, b := q / m, q % m;
    assert v == (256 * m) * a + (256 * b + r);
    DivModUnique(v, 256 * m, a, 256 * b + r);
  }

  /** Byte k + 1 of v is byte k of v shifted right by eight bits. */
  lemma ByteOfShift(v: int, k: nat)
    requires k < 7
    ensures ByteOf(v, k + 1) == ByteOf(v / 256, k)
  {
    ModSplit(v, Radix(k));
  }
}
