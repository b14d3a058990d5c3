/** The firmware's `uchar`: an unsigned 8-bit value, with its wrap-around made explicit. */
module Bytes {

  newtype Byte = x: int | 0 <= x < 0x100

  /** The value an 8-bit register or `uchar` variable holds after `v` is stored into it. */
  function Wrap(v: int): (r: Byte)
    ensures r as int % 0x100 == v % 0x100
    ensures 0 <= v < 0x100 ==> r as int == v
  {
    (v % 0x100) as Byte
  }

  /** `(b & mask) != 0`, the firmware's GET_BIT test on a port or request byte. */
  predicate AnySet(b: Byte, mask: bv8)
  {
    (b as bv8) & mask != 0
  }
}
