/** Java's 32-bit `int` and 8-bit `byte`, as far as the codec relies on them.
    Bytes are unsigned `bv8` values; a Java `int` that the codec only does bit
    arithmetic on is its 32-bit pattern `bv32`; an `int` that is used as a
    number (a length) is an `int` kept in range by `Wrap`. */
module JavaInts {

  /** Integer.MAX_VALUE; also the largest length a Java array can have. */
  const MaxInt: int := 0x7FFF_FFFF
  /** Integer.MIN_VALUE. */
  const MinInt: int := -0x8000_0000

  predicate IsInt(x: int) {
    MinInt <= x <= MaxInt
  }

  /** The Java `int` that the mathematical integer `x` becomes when it is
      computed with 32-bit two's-complement arithmetic. */
  function Wrap(x: int): (r: int)
    ensures IsInt(r)
    ensures (x - r) % 0x1_0000_0000 == 0
    ensures IsInt(x) ==> r == x
  {
    (x + 0x8000_0000) % 0x1_0000_0000 - 0x8000_0000
  }

  /** Widening a `byte` to an `int`: bits 7..0 are kept and the sign bit
      (bit 7) is copied into bits 31..8. */
  function SignExtend(x: bv8): (r: bv32)
    ensures r & 0xFF == x as bv32
    ensures r & 0xFFFF_FF00 == if x & 0x80 == 0 then 0 else 0xFFFF_FF00
  {
    if x < 0x80 then x as bv32 else x as bv32 | 0xFFFF_FF00
  }

  /** The cast `(byte) x` on an `int`: only bits 7..0 survive. */
  function Truncate(x: bv32): (r: bv8)
    ensures r as bv32 == x & 0xFF
  {
    (x & 0xFF) as bv8
  }

  /** Sign extension never reaches the bits 7..0 that the codec reads. */
  lemma SignExtendLowBits(x: bv8, k: nat)
    requires k < 8
    ensures ((SignExtend(x) >> k) & 1) as bv8 == (x >> k) & 1
  {
  }
}
