/**
 * Java's fixed-width integers. Dafny integers are unbounded, so the
 * narrowing casts and wrap-around that the Java code relies on are
 * written out here.
 */
module JavaInt {
  const TWO_32: int := 0x1_0000_0000
  const TWO_64: int := 0x1_0000_0000_0000_0000

  /** A Java `int`. */
  type int32 = x: int | -0x8000_0000 <= x < 0x8000_0000
  /** A Java `long`. */
  type int64 = x: int | -0x8000_0000_0000_0000 <= x < 0x8000_0000_0000_0000

  /** The cast `(int)` of a wider integer: keep the low 32 bits, read them as two's complement. */
  function ToInt32(v: int): (r: int32)
    ensures (v - r) % TWO_32 == 0
    ensures -0x8000_0000 <= v < 0x8000_0000 ==> r == v
  {
    var m := v % TWO_32;
    if m < 0x8000_0000 then m else m - TWO_32
  }

  /** Java `long` arithmetic: the exact result reduced to 64 bits, two's complement. */
  function Wrap64(v: int): (r: int64)
    ensures (v - r) % TWO_64 == 0
    ensures -0x8000_0000_0000_0000 <= v < 0x8000_0000_0000_0000 ==> r == v
  {
    var m := v % TWO_64;
    if m < 0x8000_0000_0000_0000 then m else m - TWO_64
  }

  /** Two integers that agree modulo 2^32 have the same `(int)` cast. */
  lemma ToInt32Congruent(u: int, v: int)
    requires (u - v) % TWO_32 == 0
    ensures ToInt32(u) == ToInt32(v)
  {
    var k := (u - v) / TWO_32;
    assert u == v + k * TWO_32;
    assert u % TWO_32 == v % TWO_32 by {
      ModShift(v, k);
    }
  }

  /** Adding a multiple of 2^32 does not change the `(int)` cast. */
  lemma ToInt32Shift(v: int, k: int)
    ensures ToInt32(v + k * TWO_32) == ToInt32(v)
  {
    ModShift(v, k);
  }

  lemma ModShift(v: int, k: int)
    ensures (v + k * TWO_32) % TWO_32 == v % TWO_32
  {
  }

  /**
   * Wrapping a sum to 64 bits first and then casting to int gives the
   * same as casting the exact sum: 2^32 divides 2^64.
   */
  lemma ToInt32OfWrap64(v: int)
    ensures ToInt32(Wrap64(v)) == ToInt32(v)
  {
    var k := (v - Wrap64(v)) / TWO_64;
    assert v - Wrap64(v) == k * TWO_64;
    assert k * TWO_64 == (k * 0x1_0000_0000) * TWO_32;
    assert (v - Wrap64(v)) % TWO_32 == 0 by {
      ModShift(0, k * 0x1_0000_0000);
    }
    ToInt32Congruent(v, Wrap64(v));
  }
}
