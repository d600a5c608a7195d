/**
 * Inter prediction arithmetic (clauses 8.4.2.2.1 and 8.4.2.3 of H.264): six-tap sums in 16 bits, and
 * weighted prediction in packed 8-bit weights with one offset and one shift.
 */
module Inter {
  import opened Arithmetic
  import opened Lanes

  // --- half samples in two dimensions ---

  function Tap6(a: int, b: int, c: int, d: int, e: int, f: int): int {
    a - 5 * b + 20 * c + 20 * d - 5 * e + f
  }

  // maddubs in one lane: two products of a byte and a signed byte, added with saturation.
  function Maddubs(q: u8, p: u8, w0: int, w1: int): int16 {
    Sat16(q * w0 + p * w1)
  }

  /** sixtapH and sixtapV in one lane. */
  function SixTap(a: u8, b: u8, c: u8, d: u8, e: u8, f: u8): int16 {
    Int16(Int16(Maddubs(a, b, 1, -5) + Maddubs(c, d, 20, 20)) + Maddubs(e, f, -5, 1))
  }

  // The sums of six bytes.
  predicate Sum6(x: int) {
    -2550 <= x <= 10710
  }

  lemma SixTapExact(a: u8, b: u8, c: u8, d: u8, e: u8, f: u8)
    ensures SixTap(a, b, c, d, e, f) == Tap6(a, b, c, d, e, f) && Sum6(Tap6(a, b, c, d, e, f))
  {
    hide Int16;
    WrapInside(a - 5 * b + 20 * c + 20 * d);
    WrapInside(Tap6(a, b, c, d, e, f));
  }

  lemma WrapInside(x: int)
    requires -0x8000 <= x < 0x8000
    ensures Int16(x) == x
  {
  }

  /** sixtapHV in one lane; a 16-bit operation that could leave its range wraps, but for the one that saturates. */
  function SixTapHV(a: int16, b: int16, c: int16, d: int16, e: int16, f: int16): int16 {
    var af, be, cd := Int16(a + f), Int16(b + e), Int16(c + d);
    var sum := Sat16(Int16(af - be) / 4 + Int16(cd - be));
    Int16(sum / 4 + cd)
  }

  // shrrpus16 by 6
  function Round6(x: int16): u8 {
    PackUs(Int16(x + 32) / 64)
  }

  lemma Rounding(s: int)
    ensures (s / 16 + 32) / 64 == (s + 512) / 1024
  {
  }

  lemma HalfSampleSums(a: int, b: int, c: int, d: int, e: int, f: int)
    requires Sum6(a) && Sum6(b) && Sum6(c) && Sum6(d) && Sum6(e) && Sum6(f)
    ensures var af, be, cd := a + f, b + e, c + d;
            var sum := Sat16((af - be) / 4 + (cd - be)) / 4 + cd;
            -0x8000 <= sum < 0x7F00 && SixTapHV(a, b, c, d, e, f) == sum
  {
    hide Int16;
    var af, be, cd := a + f, b + e, c + d;
    WrapInside(af);
    WrapInside(be);
    WrapInside(cd);
    WrapInside(af - be);
    WrapInside(cd - be);
    WrapInside(Sat16((af - be) / 4 + (cd - be)) / 4 + cd);
  }

  // The sum before rounding, from sums of opposite taps.
  lemma SaturatedSum(af: int, be: int, cd: int)
    requires -5100 <= af <= 21420 && -5100 <= be <= 21420 && -5100 <= cd <= 21420
    ensures var exact := (af - be) / 4 + (cd - be);
            Clip3(0, 255, (Sat16(exact) / 4 + cd + 32) / 64) == Clip3(0, 255, (exact / 4 + cd + 32) / 64)
  {
    var exact := (af - be) / 4 + (cd - be);
    if exact > 0x7FFF {
      Rounded(0x7FFF / 4 + cd + 32, 255);
      Rounded(exact / 4 + cd + 32, 255);
    } else if exact < -0x8000 {
      Rounded(-0x8000 / 4 + cd + 32, -1);
      Rounded(exact / 4 + cd + 32, -1);
    }
  }

  lemma Rounded(x: int, q: int)
    ensures x >= q * 64 ==> x / 64 >= q
    ensures x < (q + 1) * 64 ==> x / 64 <= q
  {
  }

  lemma ExactSum(af: int, be: int, cd: int)
    ensures (((af - be) / 4 + (cd - be)) / 4 + cd + 32) / 64 == (af - 5 * be + 20 * cd + 512) / 1024
  {
    assert ((af - be) / 4 + (cd - be)) / 4 + cd == (af - 5 * be + 20 * cd) / 16;
    Rounding(af - 5 * be + 20 * cd);
  }

  /** No wrap matters, and where the inner sum saturates the sample is 0 or 255 anyway. */
  lemma HalfSampleExact(a: int, b: int, c: int, d: int, e: int, f: int)
    requires Sum6(a) && Sum6(b) && Sum6(c) && Sum6(d) && Sum6(e) && Sum6(f)
    ensures Round6(SixTapHV(a, b, c, d, e, f)) == Clip3(0, 255, (Tap6(a, b, c, d, e, f) + 512) / 1024)
  {
    hide Clip3, Sat16, Int16, SixTapHV;
    HalfSampleSums(a, b, c, d, e, f);
    WrapInside(SixTapHV(a, b, c, d, e, f) + 32);
    SaturatedSum(a + f, b + e, c + d);
    ExactSum(a + f, b + e, c + d);
    assert Tap6(a, b, c, d, e, f) == (a + f) - 5 * (b + e) + 20 * (c + d);
  }

  /** Rows of six bytes, filtered across and then down, or down and then across. */
  datatype Row = Row(a: u8, b: u8, c: u8, d: u8, e: u8, f: u8)

  function Across(r: Row): int {
    Tap6(r.a, r.b, r.c, r.d, r.e, r.f)
  }

  // The sample j between 36 bytes, as the vector code computes it.
  function HalfSample(r0: Row, r1: Row, r2: Row, r3: Row, r4: Row, r5: Row): u8 {
    Round6(SixTapHV(SixTap(r0.a, r0.b, r0.c, r0.d, r0.e, r0.f), SixTap(r1.a, r1.b, r1.c, r1.d, r1.e, r1.f),
                    SixTap(r2.a, r2.b, r2.c, r2.d, r2.e, r2.f), SixTap(r3.a, r3.b, r3.c, r3.d, r3.e, r3.f),
                    SixTap(r4.a, r4.b, r4.c, r4.d, r4.e, r4.f), SixTap(r5.a, r5.b, r5.c, r5.d, r5.e, r5.f)))
  }

  // (8-245): j1 from the intermediate sums of either direction.
  function SpecJ1(r0: Row, r1: Row, r2: Row, r3: Row, r4: Row, r5: Row): int {
    Tap6(Tap6(r0.a, r1.a, r2.a, r3.a, r4.a, r5.a), Tap6(r0.b, r1.b, r2.b, r3.b, r4.b, r5.b),
         Tap6(r0.c, r1.c, r2.c, r3.c, r4.c, r5.c), Tap6(r0.d, r1.d, r2.d, r3.d, r4.d, r5.d),
         Tap6(r0.e, r1.e, r2.e, r3.e, r4.e, r5.e), Tap6(r0.f, r1.f, r2.f, r3.f, r4.f, r5.f))
  }

  /** For all samples, j is the clipped rounded sum of the standard, whichever direction goes first. */
  lemma HalfSampleMeetsSpec(r0: Row, r1: Row, r2: Row, r3: Row, r4: Row, r5: Row)
    ensures HalfSample(r0, r1, r2, r3, r4, r5) == Clip3(0, 255, (SpecJ1(r0, r1, r2, r3, r4, r5) + 512) / 1024)
  {
    hide SixTap, SixTapHV, Round6, Clip3, Sum6;
    SixTapExact(r0.a, r0.b, r0.c, r0.d, r0.e, r0.f);
    SixTapExact(r1.a, r1.b, r1.c, r1.d, r1.e, r1.f);
    SixTapExact(r2.a, r2.b, r2.c, r2.d, r2.e, r2.f);
    SixTapExact(r3.a, r3.b, r3.c, r3.d, r3.e, r3.f);
    SixTapExact(r4.a, r4.b, r4.c, r4.d, r4.e, r4.f);
    SixTapExact(r5.a, r5.b, r5.c, r5.d, r5.e, r5.f);
    HalfSampleExact(Across(r0), Across(r1), Across(r2), Across(r3), Across(r4), Across(r5));
  }

  /** A flat area stays as it is, between rows and columns. */
  lemma FlatKept(v: u8)
    ensures var r := Row(v, v, v, v, v, v);
            HalfSample(r, r, r, r, r, r) == v && SpecJ1(r, r, r, r, r, r) == 1024 * v
  {
    hide HalfSample;
    var r := Row(v, v, v, v, v, v);
    HalfSampleMeetsSpec(r, r, r, r, r, r);
  }

  // --- weighted prediction ---

  lemma Pow2Bounds(k: nat)
    requires k <= 7
    ensures Pow2(k) <= 128 && (k <= 6 ==> Pow2(k) <= 64)
  {
    assert Pow2(0) == 1 && Pow2(1) == 2 && Pow2(2) == 4 && Pow2(3) == 8;
    assert Pow2(4) == 16 && Pow2(5) == 32 && Pow2(6) == 64 && Pow2(7) == 128;
    assert k == 0 || k == 1 || k == 2 || k == 3 || k == 4 || k == 5 || k == 6 || k == 7;
  }

  /** The weight, offset and shift lanes of a blend (the wod vector, for one component). */
  datatype Blend = Blend(w0: int, w1: int, o: int, wd: nat)

  // maddshr in one lane, of the prediction q of the first list and p of the second.
  function Apply(b: Blend, q: u8, p: u8): int {
    Clip3(0, 255, Sat16(Maddubs(q, p, b.w0, b.w1) + b.o) / Pow2(b.wd))
  }

  // Weights fit signed bytes, the offset 16 bits.
  predicate Packs(b: Blend) {
    -128 <= b.w0 < 128 && -128 <= b.w1 < 128 && -0x8000 <= b.o < 0x8000 && b.wd <= 7
  }

  const NO_WEIGHT := Blend(0, 1, 0, 0)
  const DEFAULT2 := Blend(1, 1, 1, 1)

  /** decode_inter's choices: one list with explicit weights, two lists with implicit or explicit ones. */
  function Explicit1(w: int, o: int, logWD: nat): Blend {
    if w < 128 then Blend(0, w, (o * 2 + 1) * Pow2(logWD) / 2, logWD) else NO_WEIGHT
  }

  function Implicit2(w1: int): Blend {
    if w1 == 32 then DEFAULT2
    else if (w1 + 63) % 0x1_0000_0000 >= 191 then Blend(2 - w1 / 32, w1 / 32, 1, 1)
    else Blend(64 - w1, w1, 32, 6)
  }

  function Explicit2(w0: int, w1: int, o0: int, o1: int, logWD: nat): Blend {
    Blend(w0, w1, OrOne(o0 + o1 + 1) * Pow2(logWD), logWD + 1)
  }

  // x | 1
  function OrOne(x: int): int {
    x / 2 * 2 + 1
  }

  /** Explicit weighting of one list (8-298), two lists (8-299) and the default average (8-273). */
  function SpecOne(v: u8, w: int, o: int, logWD: nat): int {
    Clip3(0, 255, (if logWD >= 1 then (v * w + Pow2(logWD - 1)) / Pow2(logWD) else v * w) + o)
  }

  function SpecTwo(q: u8, v: u8, w0: int, w1: int, o0: int, o1: int, logWD: nat): int {
    Clip3(0, 255, (q * w0 + v * w1 + Pow2(logWD)) / Pow2(logWD + 1) + (o0 + o1 + 1) / 2)
  }

  /**
   * Two lists: the weighted sum rounded to the nearest multiple x of the denominator, upwards if there are two, and
   * moved by the mean m of the offsets, rounded up.
   */
  lemma WeightedTwo(q: u8, v: u8, w0: int, w1: int, o0: int, o1: int, logWD: nat, x: int, m: int)
    requires var d: int := Pow2(logWD); -d <= q * w0 + v * w1 - x * (2 * d) < d
    requires 0 <= 2 * m - (o0 + o1) <= 1
    ensures SpecTwo(q, v, w0, w1, o0, o1, logWD) == if x + m < 0 then 0 else if x + m > 255 then 255 else x + m
  {
    var d := Pow2(logWD);
    var s := q * w0 + v * w1 + d;
    assert Pow2(logWD + 1) == 2 * d;
    assert s == x * (2 * d) + (s - x * (2 * d));
    Digits(s, x, s - x * (2 * d), 2 * d);
  }

  /** One list: the weighted sample rounded in the same way and moved by the offset. */
  lemma WeightedOne(v: u8, w: int, o: int, logWD: nat, x: int)
    requires if logWD == 0 then x == v * w
             else var h: int := Pow2(logWD - 1); -h <= v * w - x * (2 * h) < h
    ensures SpecOne(v, w, o, logWD) == if x + o < 0 then 0 else if x + o > 255 then 255 else x + o
  {
    if logWD > 0 {
      var h := Pow2(logWD - 1);
      var s := v * w + h;
      assert Pow2(logWD) == 2 * h;
      assert s == x * (2 * h) + (s - x * (2 * h));
      Digits(s, x, s - x * (2 * h), 2 * h);
    }
  }

  lemma DivShift(a: int, o: int, d: int)
    requires d > 0
    ensures (a + o * d) / d == a / d + o
  {
    var q, r := a / d, a % d;
    assert a + o * d == (q + o) * d + r;
    Digits(a + o * d, q + o, r, d);
  }

  // Saturating to 16 bits before a shift of up to 7 does not show in a byte.
  lemma Saturates(x: int, d: int)
    requires 1 <= d <= 128
    ensures Clip3(0, 255, Sat16(x) / d) == Clip3(0, 255, x / d)
  {
    if x > 0x7FFF {
      QuotientAtLeast(x, 255, d);
      QuotientAtLeast(0x7FFF, 255, d);
    } else if x < -0x8000 {
      QuotientNegative(x, d);
      QuotientNegative(-0x8000, d);
    }
  }

  lemma QuotientAtLeast(x: int, q: int, d: int)
    requires d > 0 && x >= q * d
    ensures x / d >= q
  {
    if x / d < q {
      MulLess(x / d, q, d);
    }
  }

  lemma QuotientNegative(x: int, d: int)
    requires d > 0 && x < 0
    ensures x / d < 0
  {
    if x / d >= 0 {
      Monotone(0, x / d, d);
    }
  }

  // Products of bytes and weights whose sum keeps within [-128, 128] fit 16 bits.
  lemma NoOverflow(q: u8, p: u8, w0: int, w1: int)
    requires -128 <= w0 < 128 && -128 <= w1 < 128 && -128 <= w0 + w1 <= 128
    ensures Maddubs(q, p, w0, w1) == q * w0 + p * w1
  {
    if w0 >= 0 && w1 >= 0 {
      Monotone(q, 255, w0);
      Monotone(p, 255, w1);
      Monotone(0, q, w0);
      Monotone(0, p, w1);
    } else if w0 < 0 && w1 < 0 {
      Monotone(q, 255, -w0);
      Monotone(p, 255, -w1);
      Monotone(0, q, -w0);
      Monotone(0, p, -w1);
      assert q * w0 == -(q * -w0) && p * w1 == -(p * -w1);
    } else if w0 >= 0 {
      Monotone(q, 255, w0);
      Monotone(0, q, w0);
      Monotone(p, 255, -w1);
      Monotone(0, p, -w1);
      assert p * w1 == -(p * -w1);
    } else {
      Monotone(q, 255, -w0);
      Monotone(0, q, -w0);
      Monotone(p, 255, w1);
      Monotone(0, p, w1);
      assert q * w0 == -(q * -w0);
    }
  }

  lemma Monotone(a: int, b: int, w: int)
    requires a <= b && w >= 0
    ensures a * w <= b * w
  {
    assert (b - a) * w >= 0;
  }

  /** One list: for all weights and offsets, the packed blend is (8-298). */
  lemma ExplicitOneExact(q: u8, v: u8, w: int, o: int, logWD: nat)
    requires -128 <= w < 128 && -128 <= o < 128 && logWD <= 7
    ensures Packs(Explicit1(w, o, logWD)) && Apply(Explicit1(w, o, logWD), q, v) == SpecOne(v, w, o, logWD)
  {
    hide Pow2, Clip3;
    var d := Pow2(logWD);
    Pow2Bounds(logWD);
    NoOverflow(q, v, 0, w);
    assert q * 0 == 0;
    HalfOffset(o, logWD);
    var x := v * w + (o * 2 + 1) * d / 2;
    Saturates(x, d);
    if logWD == 0 {
      Pow2Zero();
    } else {
      DivShift(v * w + Pow2(logWD - 1), o, d);
    }
  }

  lemma Pow2Zero()
    ensures Pow2(0) == 1
  {
  }

  lemma HalfOffset(o: int, logWD: nat)
    requires -128 <= o < 128 && logWD <= 7
    ensures -0x8000 <= (o * 2 + 1) * Pow2(logWD) / 2 < 0x8000
    ensures (o * 2 + 1) * Pow2(logWD) / 2 == if logWD == 0 then o else o * Pow2(logWD) + Pow2(logWD - 1)
  {
    Pow2Bounds(logWD);
    if logWD == 0 {
      Pow2Zero();
    } else {
      var h := Pow2(logWD - 1);
      assert Pow2(logWD) == 2 * h;
      HalfProduct(o, h);
      OffsetBound(o, h);
    }
  }

  lemma HalfProduct(o: int, h: int)
    ensures (o * 2 + 1) * (2 * h) / 2 == o * (2 * h) + h
  {
    assert (o * 2 + 1) * (2 * h) == 2 * (o * (2 * h) + h);
  }

  lemma OffsetBound(o: int, h: int)
    requires -128 <= o < 128 && 0 <= h <= 64
    ensures -0x8000 <= o * (2 * h) + h < 0x8000
  {
    Monotone(-128, o, 2 * h);
    Monotone(o, 127, 2 * h);
  }

  /** A weight of 128, inferred at denominator 7, is no weighting. */
  lemma InferredWeight(q: u8, v: u8)
    ensures Apply(Explicit1(128, 0, 7), q, v) == v == SpecOne(v, 128, 0, 7)
  {
    assert Pow2(6) == 64 && Pow2(7) == 128;
    DivShift(64, v, 128);
  }

  // One shift by 6 of a multiple of 32 with the rounding term, and one by 1 without it.
  lemma ByHalves(x: int)
    ensures (32 * x + 32) / 64 == (x + 1) / 2
  {
  }

  // The weights that do not fit a byte, or are equal.
  lemma ImplicitHalves(q: u8, v: u8, w1: int)
    requires w1 == 32 || w1 == 128 || w1 == -64
    ensures Packs(Implicit2(w1)) && Apply(Implicit2(w1), q, v) == SpecTwo(q, v, 64 - w1, w1, 0, 0, 5)
  {
    hide Clip3;
    assert Pow2(1) == 2 && Pow2(5) == 32 && Pow2(6) == 64;
    var b := Implicit2(w1);
    assert 64 - w1 == 32 * b.w0 && w1 == 32 * b.w1 && b.o == 1 && b.wd == 1;
    ByHalves(q * b.w0 + v * b.w1);
    NoOverflow(q, v, b.w0, b.w1);
    Saturates(q * b.w0 + v * b.w1 + 1, 2);
    Multiples(q, v, b.w0, b.w1);
  }

  lemma Multiples(q: int, v: int, w0: int, w1: int)
    ensures q * (32 * w0) + v * (32 * w1) == 32 * (q * w0 + v * w1)
  {
  }

  /** Implicit weights, all of 8.4.2.3.1: 32 as an average, 128 and -64 by halves, the others as they are. */
  lemma ImplicitExact(q: u8, v: u8, w1: int)
    requires -64 <= w1 <= 128
    ensures Packs(Implicit2(w1)) && Apply(Implicit2(w1), q, v) == SpecTwo(q, v, 64 - w1, w1, 0, 0, 5)
  {
    hide Clip3;
    if w1 == 32 || w1 == 128 || w1 == -64 {
      ImplicitHalves(q, v, w1);
    } else {
      assert Pow2(5) == 32 && Pow2(6) == 64;
      NoOverflow(q, v, 64 - w1, w1);
      Saturates(q * (64 - w1) + v * w1 + 32, 64);
    }
  }

  // The folded offset is twice the mean offset, and the rounding term.
  lemma FoldedOffset(o0: int, o1: int, logWD: nat)
    requires -128 <= o0 < 128 && -128 <= o1 < 128 && logWD <= 6
    ensures OrOne(o0 + o1 + 1) * Pow2(logWD) == (o0 + o1 + 1) / 2 * Pow2(logWD + 1) + Pow2(logWD)
    ensures -0x8000 <= OrOne(o0 + o1 + 1) * Pow2(logWD) < 0x8000
  {
    Pow2Bounds(logWD);
    var m, d := (o0 + o1 + 1) / 2, Pow2(logWD);
    assert Pow2(logWD + 1) == 2 * d;
    assert (m * 2 + 1) * d == m * (2 * d) + d;
    Monotone(-255, OrOne(o0 + o1 + 1), d);
    Monotone(OrOne(o0 + o1 + 1), 255, d);
  }

  // The rest of (8-299), for a sum of two products.
  function Scaled(x: int, offsets: int, logWD: nat): int {
    Clip3(0, 255, (x + Pow2(logWD)) / Pow2(logWD + 1) + (offsets + 1) / 2)
  }

  // The folded offset and one shift give it, saturation included.
  lemma ScaledByFold(x: int, o0: int, o1: int, logWD: nat)
    requires -128 <= o0 < 128 && -128 <= o1 < 128 && logWD <= 6
    ensures Clip3(0, 255, Sat16(x + OrOne(o0 + o1 + 1) * Pow2(logWD)) / Pow2(logWD + 1)) == Scaled(x, o0 + o1, logWD)
  {
    hide Pow2, Clip3;
    Pow2Bounds(logWD + 1);
    FoldedOffset(o0, o1, logWD);
    Saturates(x + OrOne(o0 + o1 + 1) * Pow2(logWD), Pow2(logWD + 1));
    DivShift(x + Pow2(logWD), (o0 + o1 + 1) / 2, Pow2(logWD + 1));
  }

  lemma ScaledMonotone(x: int, y: int, offsets: int, logWD: nat)
    requires x <= y
    ensures Scaled(x, offsets, logWD) <= Scaled(y, offsets, logWD)
  {
    hide Pow2;
    QuotientMonotone(x + Pow2(logWD), y + Pow2(logWD), Pow2(logWD + 1));
  }

  lemma QuotientMonotone(x: int, y: int, d: int)
    requires x <= y && d > 0
    ensures x / d <= y / d
  {
    if y / d < x / d {
      MulLess(y / d, x / d, d);
    }
  }

  /** Two lists: for all weights that 8.4.2.3 allows below denominator 7, the packed blend is (8-299). */
  lemma ExplicitTwoExact(q: u8, v: u8, w0: int, w1: int, o0: int, o1: int, logWD: nat)
    requires -128 <= w0 < 128 && -128 <= w1 < 128 && -128 <= w0 + w1 <= 128
    requires -128 <= o0 < 128 && -128 <= o1 < 128 && logWD <= 6
    ensures Packs(Explicit2(w0, w1, o0, o1, logWD))
    ensures Apply(Explicit2(w0, w1, o0, o1, logWD), q, v) == SpecTwo(q, v, w0, w1, o0, o1, logWD)
  {
    hide Pow2, Clip3;
    NoOverflow(q, v, w0, w1);
    FoldedOffset(o0, o1, logWD);
    ScaledByFold(q * w0 + v * w1, o0, o1, logWD);
  }

  /** Products saturate for some samples exactly if the weights sum to more than 8.4.2.3 allows. */
  lemma ProductsFit(w0: int, w1: int)
    requires -128 <= w0 < 128 && -128 <= w1 < 128
    ensures (forall q: u8, p: u8 :: Maddubs(q, p, w0, w1) == q * w0 + p * w1) <==> -128 <= w0 + w1 <= 128
  {
    if -128 <= w0 + w1 <= 128 {
      forall q: u8, p: u8
        ensures Maddubs(q, p, w0, w1) == q * w0 + p * w1
      {
        NoOverflow(q, p, w0, w1);
      }
    } else {
      assert Maddubs(255, 255, w0, w1) != 255 * w0 + 255 * w1;
    }
  }

  // The weights for which the packed blend of two samples of 255 is another than (8-299).
  predicate TooWhite(w0: int, w1: int, o0: int, o1: int, logWD: nat) {
    logWD == 6 && w0 + w1 > 128 && (o0 + o1 + 1) / 2 <= -2
  }

  /**
   * For all weights in a byte, the packed blend is (8-299) for all samples exactly unless the denominator is 6,
   * the weights sum to more than 128 and the mean offset is -2 or less.
   */
  lemma ExplicitTwoDiffers(w0: int, w1: int, o0: int, o1: int, logWD: nat)
    requires -128 <= w0 < 128 && -128 <= w1 < 128 && -128 <= o0 < 128 && -128 <= o1 < 128 && logWD <= 6
    ensures var b := Explicit2(w0, w1, o0, o1, logWD);
            (forall q: u8, v: u8 :: Apply(b, q, v) == SpecTwo(q, v, w0, w1, o0, o1, logWD)) <==>
            !TooWhite(w0, w1, o0, o1, logWD)
  {
    hide Pow2, Apply, SpecTwo, TooWhite;
    WhiteDiffers(w0, w1, o0, o1, logWD);
    if !TooWhite(w0, w1, o0, o1, logWD) {
      forall q: u8, v: u8
        ensures Apply(Explicit2(w0, w1, o0, o1, logWD), q, v) == SpecTwo(q, v, w0, w1, o0, o1, logWD)
      {
        if -128 <= w0 + w1 <= 128 {
          ExplicitTwoExact(q, v, w0, w1, o0, o1, logWD);
        } else {
          White(q, v, w0, w1, o0, o1, logWD);
        }
      }
    }
  }

  // At two samples of 255.
  lemma WhiteDiffers(w0: int, w1: int, o0: int, o1: int, logWD: nat)
    requires -128 <= w0 < 128 && -128 <= w1 < 128 && -128 <= o0 < 128 && -128 <= o1 < 128 && logWD <= 6
    ensures var b := Explicit2(w0, w1, o0, o1, logWD);
            Apply(b, 255, 255) == SpecTwo(255, 255, w0, w1, o0, o1, logWD) <==> !TooWhite(w0, w1, o0, o1, logWD)
  {
    hide Pow2, Clip3;
    if -128 <= w0 + w1 <= 128 {
      ExplicitTwoExact(255, 255, w0, w1, o0, o1, logWD);
    } else {
      BlendScaled(255, 255, w0, w1, o0, o1, logWD);
      WhiteSum(w0 + w1, (o0 + o1 + 1) / 2, logWD);
    }
  }

  // A sum of white products beyond 16 bits, before and after saturation.
  lemma WhiteSum(w: int, m: int, logWD: nat)
    requires (128 < w <= 254 || -256 <= w < -128) && -128 <= m <= 127 && logWD <= 6
    ensures var p, d := Pow2(logWD), Pow2(logWD + 1);
            Clip3(0, 255, (Sat16(255 * w) + p) / d + m) == Clip3(0, 255, (255 * w + p) / d + m) <==>
            !(logWD == 6 && w > 128 && m <= -2)
  {
    assert Pow2(0) == 1 && Pow2(1) == 2 && Pow2(2) == 4 && Pow2(3) == 8;
    assert Pow2(4) == 16 && Pow2(5) == 32 && Pow2(6) == 64 && Pow2(7) == 128;
    assert logWD == 0 || logWD == 1 || logWD == 2 || logWD == 3 || logWD == 4 || logWD == 5 || logWD == 6;
  }

  // Both forms by the sum of the two products, which the packed one saturates.
  lemma BlendScaled(q: u8, v: u8, w0: int, w1: int, o0: int, o1: int, logWD: nat)
    requires -128 <= w0 < 128 && -128 <= w1 < 128 && -128 <= o0 < 128 && -128 <= o1 < 128 && logWD <= 6
    ensures Apply(Explicit2(w0, w1, o0, o1, logWD), q, v) == Scaled(Sat16(q * w0 + v * w1), o0 + o1, logWD)
    ensures SpecTwo(q, v, w0, w1, o0, o1, logWD) == Scaled(q * w0 + v * w1, o0 + o1, logWD)
  {
    hide Pow2, Clip3;
    ScaledByFold(Sat16(q * w0 + v * w1), o0, o1, logWD);
  }

  lemma White(q: u8, v: u8, w0: int, w1: int, o0: int, o1: int, logWD: nat)
    requires -128 <= w0 < 128 && -128 <= w1 < 128 && -128 <= o0 < 128 && -128 <= o1 < 128 && logWD <= 6
    requires !(-128 <= w0 + w1 <= 128)
    requires var b := Explicit2(w0, w1, o0, o1, logWD);
             Apply(b, 255, 255) == SpecTwo(255, 255, w0, w1, o0, o1, logWD)
    ensures Apply(Explicit2(w0, w1, o0, o1, logWD), q, v) == SpecTwo(q, v, w0, w1, o0, o1, logWD)
  {
    hide Pow2, Apply, SpecTwo, Scaled;
    var x, white := q * w0 + v * w1, 255 * w0 + 255 * w1;
    WhiteExtreme(q, v, w0, w1);
    BlendScaled(q, v, w0, w1, o0, o1, logWD);
    BlendScaled(255, 255, w0, w1, o0, o1, logWD);
    if white > 0 {
      SatBelow(x, white);
      Squeezed(Sat16(white), x, white, o0 + o1, logWD);
    } else {
      SatAbove(x, white);
      Squeezed(white, x, Sat16(white), o0 + o1, logWD);
    }
  }

  // Both weights have the sign of their sum, so white samples make the extreme one.
  lemma WhiteExtreme(q: u8, v: u8, w0: int, w1: int)
    requires -128 <= w0 < 128 && -128 <= w1 < 128 && !(-128 <= w0 + w1 <= 128)
    ensures if w0 + w1 > 0 then 0 <= q * w0 + v * w1 <= 255 * w0 + 255 * w1 && 255 * w0 + 255 * w1 > 0x7FFF
            else 255 * w0 + 255 * w1 <= q * w0 + v * w1 <= 0 && 255 * w0 + 255 * w1 < -0x8000
  {
    if w0 + w1 > 0 {
      Monotone(q, 255, w0);
      Monotone(v, 255, w1);
      Monotone(0, q, w0);
      Monotone(0, v, w1);
    } else {
      Monotone(q, 255, -w0);
      Monotone(v, 255, -w1);
      Monotone(0, q, -w0);
      Monotone(0, v, -w1);
      assert q * w0 == -(q * -w0) && v * w1 == -(v * -w1);
    }
  }

  lemma SatBelow(x: int, white: int)
    requires 0 <= x <= white && white > 0x7FFF
    ensures Sat16(x) == x < Sat16(white) || Sat16(x) == Sat16(white) <= x
  {
  }

  lemma SatAbove(x: int, white: int)
    requires white <= x <= 0 && white < -0x8000
    ensures Sat16(x) == x > Sat16(white) || Sat16(x) == Sat16(white) >= x
  {
  }

  // Between two sums that are scaled to the same sample.
  lemma Squeezed(a: int, x: int, b: int, offsets: int, logWD: nat)
    requires Scaled(a, offsets, logWD) == Scaled(b, offsets, logWD)
    ensures a <= x <= b ==> Scaled(x, offsets, logWD) == Scaled(a, offsets, logWD)
  {
    hide Scaled;
    if a <= x <= b {
      ScaledMonotone(a, x, offsets, logWD);
      ScaledMonotone(x, b, offsets, logWD);
    }
  }

  /** Weights beyond that sum may not do: the products saturate before the offset is added. */
  lemma TooMuchWeight()
    ensures Apply(Explicit2(127, 127, -128, -128, 6), 255, 255) == 128
    ensures SpecTwo(255, 255, 127, 127, -128, -128, 6) == 255
  {
    assert Pow2(6) == 64 && Pow2(7) == 128;
  }

  // The average of two lists without weights, and the copy of one.
  lemma DefaultExact(q: u8, v: u8)
    ensures Apply(DEFAULT2, q, v) == (q + v + 1) / 2 && Apply(NO_WEIGHT, q, v) == v
  {
    assert Pow2(1) == 2;
  }

  /** blend_wide: (8-299) in place on the rows of dst, for any weights and denominator. */
  method BlendWide(dst: array2<u8>, src: array2<u8>, w0: int, w1: int, offsets: int, logWD: nat,
                   ghost o0: int, ghost o1: int)
    requires src != dst && src.Length0 == dst.Length0 && src.Length1 == dst.Length1 && offsets == o0 + o1
    modifies dst
    ensures forall y, x | 0 <= y < dst.Length0 && 0 <= x < dst.Length1 ::
              dst[y, x] == SpecTwo(old(dst[y, x]), src[y, x], w0, w1, o0, o1, logWD)
  {
    hide Pow2, Clip3, SpecTwo;
    var o := (offsets + 1) / 2;
    for y := 0 to dst.Length0
      invariant forall i, x | 0 <= i < y && 0 <= x < dst.Length1 ::
          dst[i, x] == SpecTwo(old(dst[i, x]), src[i, x], w0, w1, o0, o1, logWD)
      invariant forall i, x | y <= i < dst.Length0 && 0 <= x < dst.Length1 :: dst[i, x] == old(dst[i, x])
    {
      for x := 0 to dst.Length1
        invariant forall i, j | 0 <= i < y && 0 <= j < dst.Length1 ::
            dst[i, j] == SpecTwo(old(dst[i, j]), src[i, j], w0, w1, o0, o1, logWD)
        invariant forall j | 0 <= j < x :: dst[y, j] == SpecTwo(old(dst[y, j]), src[y, j], w0, w1, o0, o1, logWD)
        invariant forall j | x <= j < dst.Length1 :: dst[y, j] == old(dst[y, j])
        invariant forall i, j | y < i < dst.Length0 && 0 <= j < dst.Length1 :: dst[i, j] == old(dst[i, j])
      {
        WideSample(dst[y, x], src[y, x], w0, w1, o0, o1, logWD);
        dst[y, x] := Clip3(0, 255, (dst[y, x] * w0 + src[y, x] * w1 + Pow2(logWD)) / Pow2(logWD + 1) + o);
      }
    }
  }

  lemma WideSample(q: u8, v: u8, w0: int, w1: int, o0: int, o1: int, logWD: nat)
    ensures SpecTwo(q, v, w0, w1, o0, o1, logWD) ==
            Clip3(0, 255, (q * w0 + v * w1 + Pow2(logWD)) / Pow2(logWD + 1) + (o0 + o1 + 1) / 2)
    ensures 0 <= SpecTwo(q, v, w0, w1, o0, o1, logWD) < 256
  {
  }
}
