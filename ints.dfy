/** The fixed-width integer types of the C++ interface and the implicit conversions between them. */
module Ints {
  newtype int32 = x: int | -0x8000_0000 <= x < 0x8000_0000
  newtype uint32 = x: int | 0 <= x < 0x1_0000_0000

  /** The implicit conversion of an `int32` to `uint32`: the same 32 bits, read as unsigned. */
  function AsUint32(i: int32): (u: uint32)
    ensures 0 <= i ==> u as int == i as int
    ensures i < 0 ==> u as int == i as int + 0x1_0000_0000
  {
    ((i as int) % 0x1_0000_0000) as uint32
  }

  /** The implicit conversion of a signed value to the 64-bit unsigned `size_t`. */
  function AsSize(x: int): (u: nat)
    ensures 0 <= x < 0x1_0000_0000_0000_0000 ==> u == x
    ensures -0x8000_0000_0000_0000 <= x < 0 ==> u == x + 0x1_0000_0000_0000_0000
  {
    x % 0x1_0000_0000_0000_0000
  }
}
