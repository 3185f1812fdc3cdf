/**
 * The fixed-width integers of the Go code, with the wrap-around of Go's
 * arithmetic and of its integer conversions written out.
 */
module Ints {

  const TWO_TO_THE_32: int := 0x1_0000_0000
  const TWO_TO_THE_64: int := 0x1_0000_0000_0000_0000

  predicate InInt32(x: int) { -0x8000_0000 <= x < 0x8000_0000 }

  predicate InInt64(x: int) { -0x8000_0000_0000_0000 <= x < 0x8000_0000_0000_0000 }

  /** The width of every protobuf enumeration in the generated Go code. */
  newtype int32 = x: int | -0x8000_0000 <= x < 0x8000_0000

  /**
   * Go's conversion of an integer to a 32-bit type: the low 32 bits, read as
   * a two's-complement number.
   */
  function Int32Of(x: int): (r: int32)
    ensures (r as int - x) % TWO_TO_THE_32 == 0
    ensures InInt32(x) ==> r as int == x
  {
    var low := x % TWO_TO_THE_32;
    assert x == (x / TWO_TO_THE_32) * TWO_TO_THE_32 + low;
    if low < 0x8000_0000 then low as int32 else (low - TWO_TO_THE_32) as int32
  }

  /** The value a mathematical result takes once stored in Go's `int` on 64-bit platforms. */
  function WrapInt64(x: int): (r: int)
    ensures InInt64(r)
    ensures (r - x) % TWO_TO_THE_64 == 0
    ensures InInt64(x) ==> r == x
  {
    var low := x % TWO_TO_THE_64;
    assert x == (x / TWO_TO_THE_64) * TWO_TO_THE_64 + low;
    if low < 0x8000_0000_0000_0000 then low else low - TWO_TO_THE_64
  }
}
