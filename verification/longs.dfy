/** Java's 64-bit signed `long`, as a range of the mathematical integers. */
module Longs {

  /** Long.MIN_VALUE */
  const MIN_LONG: int := -0x8000_0000_0000_0000

  /** Long.MAX_VALUE */
  const MAX_LONG: int := 0x7FFF_FFFF_FFFF_FFFF

  type Long = x: int | MIN_LONG <= x <= MAX_LONG
}
