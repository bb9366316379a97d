/** Fixed-width Go integers and the conversions the source applies to them. */
module Ints {

  const Two63: int := 0x8000_0000_0000_0000
  const Two64: int := 0x1_0000_0000_0000_0000

  type uint64 = x: int | 0 <= x < 0x1_0000_0000_0000_0000
  type int64 = x: int | -0x8000_0000_0000_0000 <= x < 0x8000_0000_0000_0000

  /** Go's `int64(v)` on a `uint64`: the same bit pattern read as two's complement. */
  function ToInt64(v: uint64): (r: int64)
    ensures (r - v) % Two64 == 0
    ensures v < Two63 ==> r == v
    ensures v >= Two63 ==> r < 0
  {
    if v < Two63 then v else v - Two64
  }

  /** Go's `uint64(a)` on an `int64`. */
  function ToUint64(a: int64): (r: uint64)
    ensures (r - a) % Two64 == 0
    ensures a >= 0 ==> r == a
  {
    if a < 0 then a + Two64 else a
  }

  /** Go's `+` on two `uint64` values, which wraps around modulo 2^64. */
  function AddUint64(a: uint64, b: uint64): (r: uint64)
    ensures (r - (a + b)) % Two64 == 0
    ensures a + b < Two64 ==> r == a + b
    ensures a + b >= Two64 ==> r < a
  {
    if a + b < Two64 then a + b else a + b - Two64
  }
}
