/** One lane of the vector instructions: unsigned bytes and signed 16-bit numbers that saturate or wrap. */
module Lanes {
  import opened Arithmetic

  type u8 = x: int | 0 <= x < 256

  /** A motion vector, in quarter samples. */
  datatype Mv = Mv(x: int16, y: int16)

  function Abs(a: int): nat {
    if a < 0 then -a else a
  }

  // Arithmetic shifts to the right.
  function Shr1(x: int): int {
    x / 2
  }

  function Shr2(x: int): int {
    x / 4
  }

  function Shr3(x: int): int {
    x / 8
  }

  // avgu8, subsu8, addsu8
  function Avg(a: u8, b: u8): u8 {
    (a + b + 1) / 2
  }

  function Subs(a: u8, b: u8): u8 {
    Max(a - b, 0)
  }

  function Adds(a: u8, b: u8): u8 {
    Min(a + b, 255)
  }

  // - and ~ on bytes
  function Sub(a: u8, b: u8): u8 {
    (a - b) % 256
  }

  function Not(a: u8): u8 {
    255 - a
  }

  // | of bytes of which one is zero, as the two saturated differences of a pair are
  function Or(a: u8, b: u8): u8
    requires a == 0 || b == 0
  {
    a + b
  }

  // (a ^ b) & 1
  function XorBit(a: u8, b: u8): u8 {
    (a + b) % 2
  }

  // absolute difference by two saturated ones
  function AbsDiff(a: u8, b: u8): (r: u8)
    ensures r == Abs(a - b)
  {
    Or(Subs(a, b), Subs(b, a))
  }

  // signed 16-bit lanes: adds16, subs16 and wrapping arithmetic
  function Sat16(x: int): int16 {
    Clip3(-0x8000, 0x7FFF, x)
  }

  // packus16
  function PackUs(x: int16): u8 {
    Clip3(0, 255, x)
  }
}
