/** Integer arithmetic shared by the models. */
module Arithmetic {
  function Min(a: int, b: int): int {
    if a < b then a else b
  }

  function Max(a: int, b: int): int {
    if a > b then a else b
  }

  function Clip3(lower: int, upper: int, x: int): int {
    Min(Max(x, lower), upper)
  }

  type int16 = x: int | -0x8000 <= x < 0x8000
  type int32 = x: int | -0x8000_0000 <= x < 0x8000_0000

  /** The value that 16 and 32 bits keep of a number. */
  function Int16(x: int): int16 {
    var u := x % 0x1_0000;
    if u < 0x8000 then u else u - 0x1_0000
  }

  function Int32(x: int): int32 {
    var u := x % 0x1_0000_0000;
    if u < 0x8000_0000 then u else u - 0x1_0000_0000
  }

  function Pow2(n: nat): (r: nat)
    ensures r > 0
  {
    if n == 0 then 1 else 2 * Pow2(n - 1)
  }

  lemma MulLess(a: int, b: int, m: int)
    requires m > 0 && a < b
    ensures a * m + m <= b * m
  {
    assert (b - a - 1) * m >= 0;
    assert (b - a - 1) * m == b * m - a * m - m;
  }

  /** Quotient and remainder are the only digits of a number in base m. */
  lemma Digits(x: int, a: int, b: int, m: int)
    requires x == a * m + b && 0 <= b < m
    ensures x / m == a && x % m == b
  {
    var q := x / m;
    assert x == q * m + x % m;
    if q < a {
      MulLess(q, a, m);
    } else if a < q {
      MulLess(a, q, m);
    }
  }
}
