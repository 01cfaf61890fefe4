/**
 * Fixed-width integers of the .NET runtime and of Redis.
 * A C# `int` is a signed 32-bit value whose arithmetic wraps around
 * (the default unchecked context); Redis stores counters as signed
 * 64-bit values.
 */
module MachineInts {
  const INT32_MIN: int := -0x8000_0000
  const INT32_MAX: int := 0x7FFF_FFFF
  const INT64_MIN: int := -0x8000_0000_0000_0000
  const INT64_MAX: int := 0x7FFF_FFFF_FFFF_FFFF

  newtype int32 = x: int | -0x8000_0000 <= x < 0x8000_0000
  newtype int64 = x: int | -0x8000_0000_0000_0000 <= x < 0x8000_0000_0000_0000

  /** C# `a - b` on two `int`s in an unchecked context. */
  function Sub32(a: int32, b: int32): (r: int32)
    ensures INT32_MIN <= a as int - b as int <= INT32_MAX ==> r as int == a as int - b as int
    ensures (r as int - (a as int - b as int)) % 0x1_0000_0000 == 0
  {
    var d := a as int - b as int;
    if d < INT32_MIN then (d + 0x1_0000_0000) as int32
    else if d > INT32_MAX then (d - 0x1_0000_0000) as int32
    else d as int32
  }

  /**
   * Subtracting one wraps around exactly at the bottom of the range: it
   * yields `int.MaxValue` for `int.MinValue` and for no other operand.
   */
  lemma Sub32WrapsAtMin(a: int32)
    ensures Sub32(a, 1) as int == INT32_MAX <==> a as int == INT32_MIN
  {
  }
}
