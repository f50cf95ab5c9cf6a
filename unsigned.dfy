/** C++ `unsigned int` on the planner's platforms: 32 bits, arithmetic modulo 2^32. */
module Unsigned {

  const UINT32_LIMIT: int := 0x1_0000_0000

  newtype uint32 = x: int | 0 <= x < 0x1_0000_0000

  /** The value an unsigned expression takes once its exact result is reduced modulo 2^32. */
  function Wrap(n: int): (r: uint32)
    ensures 0 <= n < UINT32_LIMIT ==> r as int == n
  {
    (n % UINT32_LIMIT) as uint32
  }

  /** `a * b` evaluated in `unsigned int`. */
  function MulU32(a: uint32, b: uint32): (r: uint32)
    ensures (a as int) * (b as int) < UINT32_LIMIT ==> r as int == (a as int) * (b as int)
  {
    Wrap((a as int) * (b as int))
  }
}
