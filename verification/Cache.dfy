/**
 * The cache of the bit reader: two 64-bit words, whose valid bits end with a set bit (the sentinel)
 * instead of being counted.
 */
module Cache {
  import opened Arithmetic
  import opened Bits

  /** 64-bit words (SIZE_BIT is 64). */
  const WORD: nat := 0x1_0000_0000_0000_0000

  function Word(x: int): (w: nat)
    ensures w < WORD
  {
    x % WORD
  }

  lemma WordSplit(i: nat, j: nat)
    requires i + j == 64
    ensures Pow2(i) * Pow2(j) == WORD
  {
    Pow2Add(i, j);
    Pow2Word(i + j);
  }

  lemma WordTimes(i: nat, j: nat)
    requires j == 64
    ensures Pow2(i + j) == Pow2(i) * WORD
  {
    Pow2Add(i, j);
    Pow2Word(j);
  }

  function Shl(x: nat, i: nat): nat {
    Word(x * Pow2(i))
  }

  function Shr(x: nat, i: nat): nat {
    Quotient(x, Pow2(i))
  }

  function Quotient(x: nat, p: nat): nat
    requires p > 0
  {
    x / p
  }

  // The upper word of h:l shifted left by i (the two parts share no bit, so + stands for |).
  function Shld(l: nat, h: nat, i: nat): nat
    requires i < 64
  {
    Shl(h, i) + Shr(l, 64 - i)
  }

  function Ctz(x: nat): nat
    requires x > 0
  {
    if x % 2 == 1 then 0 else 1 + Ctz(x / 2)
  }

  // Leading zeros of x in n bits.
  function Clz(x: nat, n: nat): nat
    requires x < Pow2(n)
  {
    if n == 0 || x >= Pow2(n - 1) then 0 else 1 + Clz(x, n - 1)
  }

  lemma {:induction false} CtzOfOdd(odd: nat, e: nat)
    requires odd % 2 == 1
    ensures odd * Pow2(e) > 0 && Ctz(odd * Pow2(e)) == e
  {
    if e == 0 {
    } else {
      CtzOfOdd(odd, e - 1);
      var y := odd * Pow2(e - 1);
      assert odd * Pow2(e) == 2 * y;
    }
  }

  lemma {:induction false} ClzOf(x: nat, n: nat, z: nat)
    requires z < n && Pow2(n - 1 - z) <= x < Pow2(n - z)
    ensures x < Pow2(n) && Clz(x, n) == z
  {
    if z == 0 {
    } else {
      ClzOf(x, n - 1, z - 1);
    }
  }

  lemma QuotientBound(x: nat, p: nat, r: nat)
    requires p > 0 && x < p * r
    ensures 0 <= x / p < r
  {
    if x / p >= r {
      assert x / p * p >= r * p by {
        if x / p > r {
          MulLess(r, x / p, p);
        }
      }
    }
  }

  lemma ShiftedDigits(x: nat, p: nat, r: nat)
    requires p > 0 && r > 0
    ensures x * r == x / p * (p * r) + x % p * r
    ensures 0 <= x % p * r < p * r
  {
    var a, b := x / p, x % p;
    assert x == a * p + b;
    assert (a * p + b) * r == a * p * r + b * r;
    assert a * p * r == a * (p * r);
    MulLess(b, p, r);
  }

  // Splitting a word in its upper and lower bits, and shifting the lower ones up.
  lemma SplitWord(x: nat, i: nat)
    requires i <= 64 && x < WORD
    ensures x == Shr(x, 64 - i) * Pow2(64 - i) + x % Pow2(64 - i)
    ensures Shr(x, 64 - i) < Pow2(i)
    ensures Shl(x, i) == x % Pow2(64 - i) * Pow2(i)
  {
    hide Pow2;
    var p, r := Pow2(64 - i), Pow2(i);
    WordSplit(64 - i, i);
    QuotientBound(x, p, r);
    ShiftedDigits(x, p, r);
    Digits(x * r, x / p, x % p * r, p * r);
  }

  /** Reading the v upper bits of h:l leaves the others, shifted up. */
  lemma ShiftOut(l: nat, h: nat, v: nat, top: nat, rest: nat)
    requires v < 64 && l < WORD && h < WORD
    requires h * WORD + l == top * Pow2(128 - v) + rest && rest < Pow2(128 - v)
    ensures Shr(h, 64 - v) == top
    ensures Shld(l, h, v) * WORD + Shl(l, v) == rest * Pow2(v)
    ensures Shld(l, h, v) < WORD
  {
    var w, p, r := WORD, Pow2(64 - v), Pow2(v);
    WordSplit(64 - v, v);
    WordTimes(64 - v, 64);
    SplitWord(h, v);
    SplitWord(l, v);
    var h1, h0, a, b := h / p, h % p, l / p, l % p;
    TopOf(h1, h0, l, w, p, top, rest);
    assert Shl(h, v) == h0 * r && Shl(l, v) == b * r;
    Regroup(h0, a, b, w, p, r);
    MulLess(h0, p, r);
  }

  lemma TopOf(h1: nat, h0: nat, l: nat, w: nat, p: nat, top: nat, rest: nat)
    requires l < w && h0 < p && rest < p * w
    requires (h1 * p + h0) * w + l == top * (p * w) + rest
    ensures h1 == top && rest == h0 * w + l
  {
    MulLess(h0, p, w);
    var low := h0 * w + l;
    assert low < p * w;
    assert (h1 * p + h0) * w == h1 * (p * w) + h0 * w;
    Digits(top * (p * w) + rest, top, rest, p * w);
    Digits(top * (p * w) + rest, h1, low, p * w);
  }

  lemma Regroup(h0: nat, a: nat, b: nat, w: nat, p: nat, r: nat)
    requires p * r == w
    ensures (h0 * r + a) * w + b * r == (h0 * w + (a * p + b)) * r
  {
    assert (h0 * r + a) * w == h0 * r * w + a * w;
    assert (h0 * w + (a * p + b)) * r == h0 * w * r + a * p * r + b * r;
    assert a * p * r == a * (p * r);
    assert h0 * r * w == h0 * w * r;
  }

  // The n bits of p from q on, then a set bit, at the top of 128 bits.
  ghost function Run(p: seq<byte>, q: nat, n: nat): nat
    requires n <= 127
  {
    (2 * ReadBits(p, q, n) + 1) * Pow2(127 - n)
  }

  /**
   * The cache invariant: the upper n bits of msb:lsb are bits q to q + n of the payload p, and a
   * set bit (the sentinel) stands after them, followed by zeros.
   */
  ghost predicate Cached(p: seq<byte>, q: nat, n: nat, msb: nat, lsb: nat) {
    n <= 127 && msb < WORD && lsb < WORD && msb * WORD + lsb == Run(p, q, n)
  }

  // Splits the cached bits after the first v.
  lemma SplitRun(p: seq<byte>, q: nat, n: nat, v: nat) returns (rest: nat)
    requires v <= n <= 127
    ensures Run(p, q, n) == ReadBits(p, q, v) * Pow2(128 - v) + rest && rest < Pow2(128 - v)
    ensures Run(p, q + v, n - v) == rest * Pow2(v)
  {
    hide ReadBits, Pow2;
    var low := ReadBits(p, q + v, n - v);
    ReadBitsConcat(p, q, v, n - v);
    rest := SplitScale(ReadBits(p, q, v), low, n - v, 127 - n);
    Rescale(2 * low + 1, 127 - n, v);
  }

  lemma SplitScale(top: nat, low: nat, m: nat, e: nat) returns (rest: nat)
    requires low < Pow2(m)
    ensures rest == (2 * low + 1) * Pow2(e) && rest < Pow2(m + 1 + e)
    ensures (2 * (top * Pow2(m) + low) + 1) * Pow2(e) == top * Pow2(m + 1 + e) + rest
  {
    Pow2Add(m + 1, e);
    rest := SplitProduct(top, low, Pow2(m), Pow2(e));
  }

  lemma SplitProduct(top: nat, low: nat, a: nat, b: nat) returns (rest: nat)
    requires low < a && b > 0
    ensures rest == (2 * low + 1) * b && rest < 2 * a * b
    ensures (2 * (top * a + low) + 1) * b == top * (2 * a * b) + rest
  {
    rest := (2 * low + 1) * b;
    MulLess(2 * low + 1, 2 * a, b);
    assert (2 * (top * a + low) + 1) * b == 2 * (top * a) * b + rest;
    assert 2 * (top * a) * b == top * (2 * a * b);
  }

  lemma Rescale(x: nat, i: nat, j: nat)
    ensures x * Pow2(i) * Pow2(j) == x * Pow2(i + j)
  {
    Pow2Add(i, j);
    assert x * Pow2(i) * Pow2(j) == x * (Pow2(i) * Pow2(j));
  }

  /** Reading v bits: the value returned, and the cache left. */
  lemma CacheRead(p: seq<byte>, q: nat, n: nat, msb: nat, lsb: nat, v: nat)
    requires Cached(p, q, n, msb, lsb) && v <= n && v < 64
    ensures Shr(msb, 64 - v) == ReadBits(p, q, v)
    ensures Cached(p, q + v, n - v, Shld(lsb, msb, v), Shl(lsb, v))
  {
    var rest := SplitRun(p, q, n, v);
    ShiftOut(lsb, msb, v, ReadBits(p, q, v), rest);
  }

  // The cache when the lower word is empty.
  ghost predicate Drained(p: seq<byte>, q: nat, n: nat, msb: nat) {
    n < 64 && msb < WORD && msb == (2 * ReadBits(p, q, n) + 1) * Pow2(63 - n)
  }

  /** The sentinel leaves the lower word exactly when fewer than 64 bits are left. */
  lemma CacheLow(p: seq<byte>, q: nat, n: nat, msb: nat, lsb: nat)
    requires Cached(p, q, n, msb, lsb)
    ensures lsb == 0 <==> n < 64
    ensures n < 64 ==> Drained(p, q, n, msb)
  {
    hide ReadBits, Pow2;
    var odd := 2 * ReadBits(p, q, n) + 1;
    if n < 64 {
      LowEmpty(odd, 63 - n, msb, lsb, 64);
    } else {
      LowKept(odd, 127 - n, msb, lsb);
    }
  }

  lemma LowEmpty(odd: nat, e: nat, msb: nat, lsb: nat, w: nat)
    requires lsb < WORD && w == 64 && msb * WORD + lsb == odd * Pow2(e + w)
    ensures lsb == 0 && msb == odd * Pow2(e)
  {
    WordTimes(e, w);
    var m := odd * Pow2(e);
    assert odd * (Pow2(e) * WORD) == m * WORD;
    Digits(msb * WORD + lsb, msb, lsb, WORD);
    Digits(m * WORD, m, 0, WORD);
  }

  lemma LowKept(odd: nat, e: nat, msb: nat, lsb: nat)
    requires odd % 2 == 1 && e < 64 && msb * WORD + lsb == odd * Pow2(e)
    ensures lsb != 0
  {
    if lsb == 0 {
      WordSplit(64 - e, e);
      var half, b := msb * Pow2(63 - e), Pow2(e);
      assert msb * (2 * Pow2(63 - e) * b) == 2 * half * b;
      if odd < 2 * half {
        MulLess(odd, 2 * half, b);
      } else if 2 * half < odd {
        MulLess(2 * half, odd, b);
      }
    }
  }

  // With w = 64 bits or more, the upper word holds the next w bits.
  lemma CacheHigh(p: seq<byte>, q: nat, n: nat, msb: nat, lsb: nat, w: nat)
    requires Cached(p, q, n, msb, lsb) && w == 64 <= n
    ensures msb == ReadBits(p, q, w)
  {
    var rest := SplitRun(p, q, n, w);
    Pow2Word(128 - w);
    Digits(msb * WORD + lsb, msb, lsb, WORD);
    Digits(msb * WORD + lsb, ReadBits(p, q, w), rest, WORD);
  }

  /** What refill makes of the two words with 64 fresh bits. */
  function RefillHigh(msb: nat, bytes: nat): int
    requires msb > 0 && Ctz(msb) < 64
  {
    msb - Pow2(Ctz(msb)) + Shr(bytes, 63 - Ctz(msb))
  }

  function RefillLow(msb: nat, bytes: nat): nat
    requires msb > 0
  {
    Shl(Word(2 * bytes + 1), Ctz(msb))
  }

  lemma CtzDrained(r: nat, n: nat, msb: nat)
    requires n < 64 && msb == (2 * r + 1) * Pow2(63 - n)
    ensures msb > 0 && Ctz(msb) == 63 - n && msb - Pow2(63 - n) == 2 * r * Pow2(63 - n)
  {
    CtzOfOdd(2 * r + 1, 63 - n);
  }

  lemma CacheRefill(p: seq<byte>, q: nat, n: nat, msb: nat, bytes: nat, w: nat)
    requires Drained(p, q, n, msb) && w == 64 && bytes == ReadBits(p, q + n, w)
    ensures msb > 0 && Ctz(msb) < 64 && RefillHigh(msb, bytes) >= 0
    ensures Cached(p, q, n + w, RefillHigh(msb, bytes), RefillLow(msb, bytes))
  {
    hide ReadBits, Pow2, RefillHigh, RefillLow, Ctz;
    var r := ReadBits(p, q, n);
    RefillValue(r, n, msb, bytes, w);
    ReadBitsConcat(p, q, n, w);
    Pow2Word(w);
    assert 127 - (n + w) == 63 - n;
  }

  lemma RefillValue(r: nat, n: nat, msb: nat, bytes: nat, w: nat)
    requires n < 64 && w == 64 && r < Pow2(n) && bytes < Pow2(w) && msb == (2 * r + 1) * Pow2(63 - n)
    ensures msb > 0 && Ctz(msb) < 64 && 0 <= RefillHigh(msb, bytes) < WORD && RefillLow(msb, bytes) < WORD
    ensures RefillHigh(msb, bytes) * WORD + RefillLow(msb, bytes) == (2 * (r * WORD + bytes) + 1) * Pow2(63 - n)
  {
    hide Pow2, Ctz;
    CtzDrained(r, n, msb);
    Pow2Word(w);
    WordSplit(n + 1, 63 - n);
    Pow2Step(n);
    RefillWhole(r, bytes, Pow2(63 - n), Pow2(n));
  }

  lemma RefillWhole(r: nat, bytes: nat, c: nat, d: nat)
    requires c > 0 && d > 0 && 2 * d * c == WORD && bytes < WORD && r < d
    ensures var high, low := 2 * r * c + bytes / d, Word(Word(2 * bytes + 1) * c);
            0 <= high < WORD && high * WORD + low == (2 * (r * WORD + bytes) + 1) * c
  {
    RefillSplit(bytes, c, d);
    RefillWords(r, bytes / d, bytes % d, c, d);
  }

  lemma RefillSplit(bytes: nat, c: nat, d: nat)
    requires c > 0 && d > 0 && 2 * d * c == WORD && bytes < WORD
    ensures bytes == bytes / d * d + bytes % d && 0 <= bytes / d < 2 * c
  {
    assert d * (2 * c) == WORD;
    QuotientBound(bytes, d, 2 * c);
  }

  // The bits r, then the bytes a:b cut after their upper bits a, then a set bit.
  lemma RefillWords(r: nat, a: nat, b: nat, c: nat, d: nat)
    requires c > 0 && d > 0 && 2 * d * c == WORD && b < d && a < 2 * c && r < d
    ensures Word(Word(2 * (a * d + b) + 1) * c) == (2 * b + 1) * c
    ensures (2 * r * c + a) * WORD + (2 * b + 1) * c == (2 * (r * WORD + (a * d + b)) + 1) * c
    ensures 2 * r * c + a < WORD
  {
    var w := WORD;
    RefillLowPart(a, b, c, d, w);
    RefillSum(r, a, b, c, d, w);
    RefillFits(r, c, d, w);
  }

  lemma RefillProduct(a: nat, b: nat, c: nat, d: nat, w: nat)
    requires 2 * d * c == w
    ensures (2 * (a * d + b) + 1) * c == a * w + (2 * b + 1) * c
  {
    assert a * (2 * d * c) == 2 * (a * d) * c;
  }

  lemma RefillLowPart(a: nat, b: nat, c: nat, d: nat, w: nat)
    requires c > 0 && d > 0 && 2 * d * c == w && b < d
    ensures w > 0 && (2 * (a * d + b) + 1) % w * c % w == (2 * b + 1) * c
  {
    var x, y := 2 * (a * d + b) + 1, (2 * b + 1) * c;
    RefillProduct(a, b, c, d, w);
    MulLess(2 * b + 1, 2 * d, c);
    assert x * c == a * w + y;
    RefillLowWord(x, y, a, c, w);
  }

  lemma RefillLowWord(x: nat, y: nat, a: nat, c: nat, w: nat)
    requires c > 0 && x * c == a * w + y && y < w
    ensures x % w * c % w == y
  {
    ModMul(x, w, c);
    Digits(x * c, a, y, w);
  }

  lemma RefillSum(r: nat, a: nat, b: nat, c: nat, d: nat, w: nat)
    requires 2 * d * c == w
    ensures (2 * r * c + a) * w + (2 * b + 1) * c == (2 * (r * w + (a * d + b)) + 1) * c
  {
    RefillProduct(a, b, c, d, w);
    Spread(r, w, 2 * (a * d + b) + 1, c);
    assert (2 * r * c + a) * w == 2 * r * c * w + a * w;
  }

  lemma Spread(r: nat, w: nat, x: nat, c: nat)
    ensures (2 * (r * w) + x) * c == 2 * r * c * w + x * c
  {
    assert 2 * (r * w) * c == 2 * r * c * w;
  }

  lemma RefillFits(r: nat, c: nat, d: nat, w: nat)
    requires c > 0 && 2 * d * c == w && r < d
    ensures 2 * r * c + 2 * c <= w
  {
    MulLess(r, d, 2 * c);
  }

  lemma ModMul(x: nat, m: nat, c: nat)
    requires m > 0 && c > 0
    ensures x % m * c % m == x * c % m
  {
    var y := x % m * c;
    assert x * c == (x / m * m + x % m) * c == x / m * c * m + y;
    Digits(x * c, x / m * c + y / m, y % m, m);
  }
}
