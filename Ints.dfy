/** Machine integer types used by the firmware, and the C++ operations on
    them whose behaviour differs from Dafny's unbounded integers. */
module Ints {

  type uint8 = x: int | 0 <= x < 0x100
  type uint16 = x: int | 0 <= x < 0x1_0000
  type uint32 = x: int | 0 <= x < 0x1_0000_0000
  type int16 = x: int | -0x8000 <= x < 0x8000
  type int32 = x: int | -0x8000_0000 <= x < 0x8000_0000

  /** `static_cast<int16_t>(x)`: keeps the low 16 bits, read as two's complement. */
  function ToInt16(x: int): (r: int16)
    ensures (x - r) % 0x1_0000 == 0
    ensures -0x8000 <= x < 0x8000 ==> r == x
  {
    (x + 0x8000) % 0x1_0000 - 0x8000
  }

  /** C++ `x / 2` on `int`: the quotient is truncated toward zero. */
  function HalfTowardZero(x: int): (r: int)
    ensures 0 <= x ==> 0 <= x - 2 * r <= 1
    ensures x < 0 ==> -1 <= x - 2 * r <= 0
  {
    if x >= 0 then x / 2 else -((-x) / 2)
  }

  /** `a - b` on `uint32_t`: the elapsed count between two readings of a
      wrapping millisecond counter. */
  function ElapsedU32(now: uint32, since: uint32): (r: uint32)
    ensures (since + r) % 0x1_0000_0000 == now
    ensures since <= now ==> r == now - since
    ensures now < since ==> r == now - since + 0x1_0000_0000
  {
    (now - since) % 0x1_0000_0000
  }
}
