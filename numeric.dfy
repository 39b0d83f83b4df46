/** The fixed-width integers of the source: C# `int` and `byte`. */
module Numeric {

  type Byte = x: int | 0 <= x < 0x100

  /** C# `int`: a 32-bit two's-complement integer. */
  type Int32 = x: int | -0x8000_0000 <= x < 0x8000_0000

  /**
   * The value C# `int` arithmetic yields in an unchecked context: the
   * mathematical result reduced modulo 2^32 into the `int` range.
   */
  function Wrap32(x: int): (r: Int32)
    ensures (x - r) % 0x1_0000_0000 == 0
    ensures -0x8000_0000 <= x < 0x8000_0000 ==> r == x
  {
    (x + 0x8000_0000) % 0x1_0000_0000 - 0x8000_0000
  }
}
