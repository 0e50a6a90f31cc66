/** 32-bit integers. */
module Integers {
  const TWO31: int := 0x8000_0000
  const TWO32: int := 0x1_0000_0000

  /** The value of a 32-bit signed integer after wrap-around. */
  function Wrap(x: int): (w: int)
    ensures -TWO31 <= w < TWO31
  {
    (x + TWO31) % TWO32 - TWO31
  }

  /** The number itself, or 0 if it is negative. */
  function Positive(n: int): nat {
    if n < 0 then 0 else n
  }
}
