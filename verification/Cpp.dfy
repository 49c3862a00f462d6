/** The `int` of the C++ side: 32 bits, two's complement. */
module Cpp {
  const INT_MAX: int := 0x7FFF_FFFF

  type int32 = x: int | -0x8000_0000 <= x <= 0x7FFF_FFFF

  /** The `int` a result out of range wraps to. Signed overflow is undefined in C++; wrapping is what the
      hardware does when the compiler lets it happen. */
  function Wrap(x: int): int32 {
    (x + 0x8000_0000) % 0x1_0000_0000 - 0x8000_0000
  }
}
