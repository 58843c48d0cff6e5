/** Java's fixed-width integer types and the conversions the key writers use. */
module Java {
  import opened Arith

  /** The bit pattern of one Java `byte`, read without sign (what `b & 0xFF` yields). */
  type byte = x: int | 0 <= x < 0x100

  /** A Java `int`. */
  type int32 = x: int | -0x8000_0000 <= x < 0x8000_0000

  /** A Java `long`. */
  type int64 = x: int | -0x8000_0000_0000_0000 <= x < 0x8000_0000_0000_0000

  const TWO_32: nat := 0x1_0000_0000
  const TWO_64: nat := 0x1_0000_0000_0000_0000

  /** 2 to the power n. */
  function Pow2(n: nat): (r: nat)
    ensures r > 0
  {
    if n == 0 then 1 else 2 * Pow2(n - 1)
  }

  /** The 32 bits of a Java `int`, read as an unsigned number (two's complement). */
  function U32(v: int32): (r: nat)
    ensures r < TWO_32
    ensures r == if v >= 0 then v else v + TWO_32
  {
    v % TWO_32
  }

  /** The 64 bits of a Java `long`, read as an unsigned number (two's complement). */
  function U64(v: int64): (r: nat)
    ensures r < TWO_64
    ensures r == if v >= 0 then v else v + TWO_64
  {
    v % TWO_64
  }

  /**
   * Java's `x >>> n` applied to the unsigned image `u` of a value: n one-bit
   * shifts, each dropping the lowest bit. It never exceeds its operand, and
   * `UshrIsDiv` shows that it divides by 2^n.
   */
  function Ushr(u: nat, n: nat): (r: nat)
    ensures r <= u
  {
    if n == 0 then u else Ushr(u / 2, n - 1)
  }

  /** Java's unsigned shift by `n` bits is division by 2^n. */
  lemma {:induction false} UshrIsDiv(u: nat, n: nat)
    ensures Ushr(u, n) == u / Pow2(n)
  {
    if n > 0 {
      UshrIsDiv(u / 2, n - 1);
      DivDiv(u, 2, Pow2(n - 1));
    }
  }

  /** The low 8 bits of `x`: Java's `(byte) x`, equivalently `x & 0xFF`. */
  function LowByte(x: int): (b: byte)
    ensures 0 <= x < 0x100 ==> b == x
  {
    x % 0x100
  }

  /** Java's narrowing cast `(int) x`: the `int` that agrees with `x` in its low 32 bits. */
  function ToInt32(x: int): (r: int32)
    ensures r % TWO_32 == x % TWO_32
  {
    var u := x % TWO_32;
    if u < 0x8000_0000 then u else u - TWO_32
  }

  /** Java's narrowing cast `(long) x`: the `long` that agrees with `x` in its low 64 bits. */
  function ToInt64(x: int): (r: int64)
    ensures r % TWO_64 == x % TWO_64
  {
    var u := x % TWO_64;
    if u < 0x8000_0000_0000_0000 then u else u - TWO_64
  }
}
