/** Unsigned machine numbers. */
module Unsigned {
  type Byte = n: nat | n < 256

  type Word32 = n: nat | n < 0x1_0000_0000

  function Max(a: int, b: int): int {
    if a > b then a else b
  }

  function Min(a: int, b: int): int {
    if a < b then a else b
  }
}
