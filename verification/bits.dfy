/** Single bits of 8-bit hardware registers. */
module Bits {

  /** A bit position inside a byte-wide register. */
  type BitIndex = i: int | 0 <= i < 8

  /** avr-libc's `_BV(i)`, that is `1 << i`, on a byte register. */
  function Mask(i: BitIndex): bv8 {
    (1 as bv8) << i
  }

  /** Bit `i` of register value `b` is 1 (the reference reading of a bit,
      independent of how the firmware masks it). */
  predicate IsSet(b: bv8, i: BitIndex) {
    (b >> i) & 1 == 1
  }

  /** The firmware's test `b & _BV(i)` is non-zero exactly when bit `i` is set. */
  lemma MaskTestsBit(b: bv8, i: BitIndex)
    ensures (b & Mask(i) != 0) == IsSet(b, i)
  {
  }
}
