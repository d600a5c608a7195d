/**
 * The deblocking filter (clause 8.7 of H.264): the scalar filter of high bit depths, the byte lanes of
 * the vector filters, and the boundary strength computed without branches.
 */
module Deblock {
  import opened Arithmetic
  import opened Lanes

  /** The samples across an edge. */
  datatype Line = Line(p3: int, p2: int, p1: int, p0: int, q0: int, q1: int, q2: int, q3: int)

  predicate Fits(l: Line, max: nat) {
    && 0 <= l.p3 <= max && 0 <= l.p2 <= max && 0 <= l.p1 <= max && 0 <= l.p0 <= max
    && 0 <= l.q0 <= max && 0 <= l.q1 <= max && 0 <= l.q2 <= max && 0 <= l.q3 <= max
  }

  /** filterSamplesFlag (8-460), for bS > 0. */
  predicate Filtered(l: Line, alpha: nat, beta: nat) {
    Abs(l.p0 - l.q0) < alpha && Abs(l.p1 - l.p0) < beta && Abs(l.q1 - l.q0) < beta
  }

  /** 8.7.2.3 for luma: bS < 4. */
  function Normal(l: Line, beta: nat, tC0: nat, max: nat): Line {
    var ap, aq := Abs(l.p2 - l.p0) < beta, Abs(l.q2 - l.q0) < beta;
    var tC := tC0 + (if ap then 1 else 0) + (if aq then 1 else 0);
    var delta := Clip3(-tC, tC, Shr3((l.q0 - l.p0) * 4 + (l.p1 - l.q1) + 4));
    l.(p0 := Clip1(max, l.p0 + delta), q0 := Clip1(max, l.q0 - delta),
       p1 := if ap then NormalOuter(l.p2, l.p1, l.p0, l.q0, tC0) else l.p1,
       q1 := if aq then NormalOuter(l.q2, l.q1, l.q0, l.p0, tC0) else l.q1)
  }

  function Clip1(max: nat, x: int): nat {
    Max(0, Min(x, max))
  }

  // (8-470): p1 moves towards the mean of p2, p0 and q0 by tC0 at most.
  function NormalOuter(p2: int, p1: int, p0: int, q0: int, tC0: int): int {
    p1 + Clip3(-tC0, tC0, Shr1(p2 + Shr1(p0 + q0 + 1) - 2 * p1))
  }

  /** 8.7.2.4 for luma: bS = 4, one side after the other. */
  function Strong(l: Line, alpha: nat, beta: nat): Line {
    var small := Abs(l.p0 - l.q0) < Shr2(alpha) + 2;
    var p := StrongSide(l.p3, l.p2, l.p1, l.p0, l.q0, l.q1, Abs(l.p2 - l.p0) < beta && small);
    var q := StrongSide(l.q3, l.q2, l.q1, l.q0, l.p0, l.p1, Abs(l.q2 - l.q0) < beta && small);
    l.(p0 := p.0, p1 := p.1, p2 := p.2, q0 := q.0, q1 := q.1, q2 := q.2)
  }

  function StrongSide(p3: int, p2: int, p1: int, p0: int, q0: int, q1: int, strong: bool): (int, int, int) {
    if strong then
      (Shr3(p2 + 2 * p1 + 2 * p0 + 2 * q0 + q1 + 4), Shr2(p2 + p1 + p0 + q0 + 2),
       Shr3(2 * p3 + 3 * p2 + p1 + p0 + q0 + 4))
    else (Shr2(2 * p1 + p0 + q1 + 2), p1, p2)
  }

  function NormalChroma(l: Line, tC0: nat, max: nat): Line {
    var tC: int := tC0 + 1;
    var delta := Clip3(-tC, tC, Shr3((l.q0 - l.p0) * 4 + (l.p1 - l.q1) + 4));
    l.(p0 := Clip1(max, l.p0 + delta), q0 := Clip1(max, l.q0 - delta))
  }

  function StrongChroma(l: Line): Line {
    l.(p0 := Shr2(2 * l.p1 + l.p0 + l.q1 + 2), q0 := Shr2(2 * l.q1 + l.q0 + l.p1 + 2))
  }

  /** 8.7.2.2: the filter of one line, with tC0 of no meaning for bS 4. */
  function Spec(l: Line, bS4: bool, chroma: bool, alpha: nat, beta: nat, tC0: nat, max: nat): Line {
    if !Filtered(l, alpha, beta) then l
    else if chroma then if bS4 then StrongChroma(l) else NormalChroma(l, tC0, max)
    else if bS4 then Strong(l, alpha, beta) else Normal(l, beta, tC0, max)
  }

  // Two samples differ by less than a threshold.
  predicate Near(a: int, b: int, limit: int) {
    a - b < limit && b - a < limit
  }

  // The differences that a line is filtered for.
  predicate Gentle(l: Line, alpha: nat, beta: nat) {
    Near(l.p0, l.q0, alpha) && Near(l.p1, l.p0, beta) && Near(l.q1, l.q0, beta)
  }

  lemma GentleMeans(l: Line, alpha: nat, beta: nat)
    ensures Filtered(l, alpha, beta) <==> Gentle(l, alpha, beta)
    ensures Abs(l.p2 - l.p0) < beta <==> Near(l.p2, l.p0, beta)
    ensures Abs(l.q2 - l.q0) < beta <==> Near(l.q2, l.q0, beta)
    ensures Abs(l.p0 - l.q0) < Shr2(alpha) + 2 <==> Near(l.p0, l.q0, alpha / 4 + 2)
  {
  }

  // The number of a range closest to x.
  predicate Closest(r: int, lower: int, upper: int, x: int) {
    lower <= r <= upper && (r == x || (r == upper && upper < x) || (r == lower && x < lower))
  }

  lemma ClipMeans(lower: int, upper: int, x: int)
    requires lower <= upper
    ensures Closest(Clip3(lower, upper, x), lower, upper, x)
  {
  }

  /** A sample keeps its value wherever it lies in the range of the bit depth. */
  lemma Clip1Means(max: nat, x: int)
    ensures Closest(Clip1(max, x), 0, max, x)
    ensures 0 <= x <= max ==> Clip1(max, x) == x
  {
  }

  /**
   * What the filter does for bS below 4, for samples of any depth: p0 moves up by a step and q0 down by the same,
   * each as far as its range goes; the step is no longer than tC0, and one more for each smooth side (any chroma).
   */
  lemma StepMeans(l: Line, chroma: bool, alpha: nat, beta: nat, tC0: nat, max: nat, step: int)
    requires Gentle(l, alpha, beta)
    requires var longest: int := LongestStep(l, chroma, beta, tC0);
             Closest(step, -longest, longest, (4 * (l.q0 - l.p0) + l.p1 - l.q1 + 4) / 8)
    ensures var r := Spec(l, false, chroma, alpha, beta, tC0, max);
            Closest(r.p0, 0, max, l.p0 + step) && Closest(r.q0, 0, max, l.q0 - step)
  {
    var tC: int := LongestStep(l, chroma, beta, tC0);
    hide Clip3, Clip1, Gentle, Near, Filtered, Abs, NormalOuter;
    GentleMeans(l, alpha, beta);
    var mean := (4 * (l.q0 - l.p0) + l.p1 - l.q1 + 4) / 8;
    assert mean == Shr3((l.q0 - l.p0) * 4 + (l.p1 - l.q1) + 4);
    ClipMeans(-tC, tC, mean);
    assert step == Clip3(-tC, tC, mean);
    Clip1Means(max, l.p0 + step);
    Clip1Means(max, l.q0 - step);
  }

  function LongestStep(l: Line, chroma: bool, beta: nat, tC0: nat): nat {
    if chroma then tC0 + 1
    else tC0 + (if Near(l.p2, l.p0, beta) then 1 else 0) + if Near(l.q2, l.q0, beta) then 1 else 0
  }

  /** The sample next to it moves only on a smooth side of luma, towards a mean, by tC0 at most. */
  lemma OuterMoves(l: Line, chroma: bool, alpha: nat, beta: nat, tC0: nat, max: nat)
    requires Gentle(l, alpha, beta)
    ensures var r := Spec(l, false, chroma, alpha, beta, tC0, max);
            var m := (l.p0 + l.q0 + 1) / 2;
            && r.p2 == l.p2 && r.q2 == l.q2
            && (if !chroma && Near(l.p2, l.p0, beta)
                then Closest(r.p1 - l.p1, 0 - tC0, tC0, (l.p2 + m - 2 * l.p1) / 2) else r.p1 == l.p1)
            && (if !chroma && Near(l.q2, l.q0, beta)
                then Closest(r.q1 - l.q1, 0 - tC0, tC0, (l.q2 + m - 2 * l.q1) / 2) else r.q1 == l.q1)
  {
    hide Clip3, Clip1, Closest, Gentle, Near, Filtered, Abs;
    GentleMeans(l, alpha, beta);
    var m := (l.p0 + l.q0 + 1) / 2;
    ClipMeans(0 - tC0, tC0, (l.p2 + m - 2 * l.p1) / 2);
    ClipMeans(0 - tC0, tC0, (l.q2 + m - 2 * l.q1) / 2);
  }

  /** bS 4: samples of a side become these means of their neighbours, three of them on a smooth side of luma. */
  lemma StrongMeans(l: Line, chroma: bool, alpha: nat, beta: nat, tC0: nat, max: nat)
    requires Gentle(l, alpha, beta)
    ensures var r := Spec(l, true, chroma, alpha, beta, tC0, max);
            var small := !chroma && Near(l.p0, l.q0, alpha / 4 + 2);
            && (if small && Near(l.p2, l.p0, beta) then
                  && r.p0 == (l.p2 + 2 * l.p1 + 2 * l.p0 + 2 * l.q0 + l.q1 + 4) / 8
                  && r.p1 == (l.p2 + l.p1 + l.p0 + l.q0 + 2) / 4
                  && r.p2 == (2 * l.p3 + 3 * l.p2 + l.p1 + l.p0 + l.q0 + 4) / 8
                else r.p0 == (2 * l.p1 + l.p0 + l.q1 + 2) / 4 && r.p1 == l.p1 && r.p2 == l.p2)
            && (if small && Near(l.q2, l.q0, beta) then
                  && r.q0 == (l.p1 + 2 * l.p0 + 2 * l.q0 + 2 * l.q1 + l.q2 + 4) / 8
                  && r.q1 == (l.p0 + l.q0 + l.q1 + l.q2 + 2) / 4
                  && r.q2 == (2 * l.q3 + 3 * l.q2 + l.q1 + l.q0 + l.p0 + 4) / 8
                else r.q0 == (2 * l.q1 + l.q0 + l.p1 + 2) / 4 && r.q1 == l.q1 && r.q2 == l.q2)
  {
    hide Gentle, Near, Filtered, Abs, StrongSide;
    GentleMeans(l, alpha, beta);
    StrongSideMeans(l.p3, l.p2, l.p1, l.p0, l.q0, l.q1);
    StrongSideMeans(l.q3, l.q2, l.q1, l.q0, l.p0, l.p1);
  }

  lemma StrongSideMeans(p3: int, p2: int, p1: int, p0: int, q0: int, q1: int)
    ensures StrongSide(p3, p2, p1, p0, q0, q1, false) == ((2 * p1 + p0 + q1 + 2) / 4, p1, p2)
    ensures StrongSide(p3, p2, p1, p0, q0, q1, true) == ((p2 + 2 * p1 + 2 * p0 + 2 * q0 + q1 + 4) / 8,
              (p2 + p1 + p0 + q0 + 2) / 4, (2 * p3 + 3 * p2 + p1 + p0 + q0 + 4) / 8)
  {
  }

  /** A line with a difference at its threshold or over is left alone. */
  lemma Unfiltered(l: Line, bS4: bool, chroma: bool, alpha: nat, beta: nat, tC0: nat, max: nat)
    requires !Gentle(l, alpha, beta)
    ensures Spec(l, bS4, chroma, alpha, beta, tC0, max) == l
  {
  }

  /** Filtered samples keep their range, and the two outermost ones do not change. */
  lemma SpecInRange(l: Line, bS4: bool, chroma: bool, alpha: nat, beta: nat, tC0: nat, max: nat)
    requires Fits(l, max)
    ensures var r := Spec(l, bS4, chroma, alpha, beta, tC0, max);
            Fits(r, max) && r.p3 == l.p3 && r.q3 == l.q3
  {
    hide NormalOuter, StrongSide, StrongChroma;
    OuterInRange(l.p2, l.p1, l.p0, l.q0, tC0, max);
    OuterInRange(l.q2, l.q1, l.q0, l.p0, tC0, max);
    var small := Abs(l.p0 - l.q0) < alpha / 4 + 2;
    SideInRange(l.p3, l.p2, l.p1, l.p0, l.q0, l.q1, Abs(l.p2 - l.p0) < beta && small, max);
    SideInRange(l.q3, l.q2, l.q1, l.q0, l.p0, l.p1, Abs(l.q2 - l.q0) < beta && small, max);
    ChromaInRange(l, max);
  }

  lemma OuterInRange(p2: int, p1: int, p0: int, q0: int, tC0: nat, max: nat)
    requires 0 <= p2 <= max && 0 <= p1 <= max && 0 <= p0 <= max && 0 <= q0 <= max
    ensures 0 <= NormalOuter(p2, p1, p0, q0, tC0) <= max
  {
    var m := (p0 + q0 + 1) / 2;
    assert 0 <= m <= max;
    assert 0 <= p1 + (p2 + m - 2 * p1) / 2 <= max;
  }

  lemma SideInRange(p3: int, p2: int, p1: int, p0: int, q0: int, q1: int, strong: bool, max: nat)
    requires 0 <= p3 <= max && 0 <= p2 <= max && 0 <= p1 <= max && 0 <= p0 <= max && 0 <= q0 <= max && 0 <= q1 <= max
    ensures var r := StrongSide(p3, p2, p1, p0, q0, q1, strong);
            0 <= r.0 <= max && 0 <= r.1 <= max && 0 <= r.2 <= max
  {
  }

  lemma ChromaInRange(l: Line, max: nat)
    requires Fits(l, max)
    ensures 0 <= StrongChroma(l).p0 <= max && 0 <= StrongChroma(l).q0 <= max
    ensures StrongChroma(l) == l.(p0 := StrongChroma(l).p0, q0 := StrongChroma(l).q0)
  {
  }

  /** What the byte lanes share: whether a sample is left as it is, and the differences that tell. */
  function Ignored(p1: u8, p0: u8, q0: u8, q1: u8, alpha: u8, beta: u8): bool {
    var both := Min(Subs(alpha, AbsDiff(p0, q0)), Subs(beta, Max(AbsDiff(p1, p0), AbsDiff(q1, q0))));
    both == 0
  }

  // The sum (p2 + ((p0 + q0 + 1) >> 1)) >> 1 by averages.
  function OuterMean(p2: u8, x0: u8): u8 {
    Sub(Avg(p2, x0), XorBit(p2, x0))
  }

  // |p2 - p0| is below beta, compared as two saturated differences with bm1 = beta - 1.
  predicate SideFlag(p2: u8, p0: u8, bm1: u8) {
    Subs(Subs(p2, p0), bm1) == Subs(Subs(p0, p2), bm1)
  }

  /** delta and -delta of the soft filters, each saturated at zero. */
  function Deltas(p1: u8, p0: u8, q0: u8, q1: u8, ftC: u8): (u8, u8) {
    var sub0 := Subs(Adds(Subs(q0, p0), 128), Subs(p0, q0));
    var sub1 := Avg(p1, Not(q1));
    var x3 := Avg(sub0, Avg(sub1, 127));
    (Min(Subs(x3, 128), ftC), Min(Subs(128, x3), ftC))
  }

  /** DEBLOCK_LUMA_SOFT, in one lane. */
  function LumaSoft(l: Line, alpha: u8, beta: u8, tC0: int): Line
    requires Fits(l, 255) && -1 <= tC0 <= 25
  {
    var ignore := Ignored(l.p1, l.p0, l.q0, l.q1, alpha, beta) || tC0 < 0;
    var ftC0: u8 := if ignore then 0 else tC0;
    var x0 := Avg(l.p0, l.q0);
    var pp1 := Min(Max(OuterMean(l.p2, x0), Subs(l.p1, ftC0)), Adds(l.p1, ftC0));
    var qp1 := Min(Max(OuterMean(l.q2, x0), Subs(l.q1, ftC0)), Adds(l.q1, ftC0));
    var bm1 := Sub(beta, 1);
    var ap, aq := SideFlag(l.p2, l.p0, bm1), SideFlag(l.q2, l.q0, bm1);
    var ftC: u8 := if ignore then 0 else ftC0 + (if ap then 1 else 0) + (if aq then 1 else 0);
    var d := Deltas(l.p1, l.p0, l.q0, l.q1, ftC);
    l.(p1 := if ap then pp1 else l.p1, q1 := if aq then qp1 else l.q1,
       p0 := Subs(Adds(l.p0, d.0), d.1), q0 := Subs(Adds(l.q0, d.1), d.0))
  }

  lemma IgnoredMeans(p1: u8, p0: u8, q0: u8, q1: u8, alpha: u8, beta: u8)
    ensures Ignored(p1, p0, q0, q1, alpha, beta) <==>
            !(Abs(p0 - q0) < alpha && Abs(p1 - p0) < beta && Abs(q1 - q0) < beta)
  {
  }

  lemma SideFlagMeans(p2: u8, p0: u8, beta: u8)
    requires beta > 0
    ensures SideFlag(p2, p0, Sub(beta, 1)) <==> Abs(p2 - p0) < beta
  {
  }

  /** Averages with a parity fix floor the mean; clamping it is clipping the step from p1. */
  lemma OuterMeans(p2: u8, p1: u8, p0: u8, q0: u8, tC0: u8)
    ensures OuterMean(p2, Avg(p0, q0)) == (p2 + (p0 + q0 + 1) / 2) / 2
    ensures Min(Max(OuterMean(p2, Avg(p0, q0)), Subs(p1, tC0)), Adds(p1, tC0)) == NormalOuter(p2, p1, p0, q0, tC0)
  {
    var m := Avg(p0, q0);
    FloorMean(p2, m);
    assert (p2 + m - 2 * p1) / 2 == (p2 + m) / 2 - p1;
  }

  lemma FloorMean(a: u8, b: u8)
    ensures Sub(Avg(a, b), XorBit(a, b)) == (a + b) / 2
  {
    assert Avg(a, b) - XorBit(a, b) == (a + b) / 2;
  }

  /**
   * The clipped delta, although q0 - p0 is clamped to 8 bits on the way: where that bites, delta is at
   * least 32 in magnitude, above any tC.
   */
  lemma DeltasMean(p1: u8, p0: u8, q0: u8, q1: u8, tC: u8)
    requires tC <= 27
    ensures var d := Deltas(p1, p0, q0, q1, tC);
            var delta := Clip3(0 - tC, tC, ((q0 - p0) * 4 + (p1 - q1) + 4) / 8);
            d.0 == Max(delta, 0) && d.1 == Max(-delta, 0)
  {
    hide Not, Avg;
    var d, x := q0 - p0, p1 - q1;
    QuarterMean(p1, q1);
    var sub0, y := Subs(Adds(Subs(q0, p0), 128), Subs(p0, q0)), 128 + x / 2 / 2;
    assert sub0 == Clip3(0, 255, 128 + d);
    AvgOf(sub0, y);
    HalfStep(d, x);
  }

  lemma QuarterMean(p1: u8, q1: u8)
    ensures Avg(Avg(p1, Not(q1)), 127) == 128 + (p1 - q1) / 2 / 2
  {
    assert Avg(p1, Not(q1)) == 128 + (p1 - q1) / 2;
  }

  // The exact delta, and what the clamped difference makes of it.
  lemma HalfStep(d: int, x: int)
    requires -255 <= d <= 255 && -255 <= x <= 255
    ensures var exact, y := (d * 4 + x + 4) / 8, 128 + x / 2 / 2;
            var x3 := (Clip3(0, 255, 128 + d) + y + 1) / 2;
            if -128 <= d <= 127 then x3 == 128 + exact
            else if d > 127 then x3 >= 160 && exact >= 32
            else x3 <= 96 && exact <= -32
  {
    Quarter(d, x);
  }

  lemma Quarter(d: int, x: int)
    ensures (d + x / 2 / 2 + 1) / 2 == (d * 4 + x + 4) / 8
  {
  }

  // Without a difference allowed, nothing changes.
  lemma SoftKeeps(p1: u8, p0: u8, q0: u8, q1: u8, x: u8)
    ensures Min(Max(x, Subs(p1, 0)), Adds(p1, 0)) == p1
    ensures Deltas(p1, p0, q0, q1, 0) == (0, 0) && Subs(Adds(p0, 0), 0) == p0
  {
  }

  lemma SoftIgnores(l: Line, alpha: u8, beta: u8, tC0: int)
    requires Fits(l, 255) && -1 <= tC0 <= 25
    requires tC0 < 0 || Ignored(l.p1, l.p0, l.q0, l.q1, alpha, beta)
    ensures LumaSoft(l, alpha, beta, tC0) == l
  {
    hide Deltas, Ignored, SideFlag, OuterMean, Avg, Min, Max, Subs, Adds;
    SoftKeeps(l.p1, l.p0, l.q0, l.q1, OuterMean(l.p2, Avg(l.p0, l.q0)));
    SoftKeeps(l.q1, l.q0, l.p0, l.p1, OuterMean(l.q2, Avg(l.p0, l.q0)));
  }

  lemma SoftApplies(l: Line, alpha: u8, beta: u8, tC0: int)
    requires Fits(l, 255) && 0 <= tC0 <= 25 && beta > 0
    requires !Ignored(l.p1, l.p0, l.q0, l.q1, alpha, beta)
    ensures LumaSoft(l, alpha, beta, tC0) == Normal(l, beta, tC0, 255)
  {
    hide Deltas, Ignored, SideFlag, OuterMean, NormalOuter, Avg, Clip3, Clip1, Sub, Min, Max, Subs, Adds, Abs;
    SideFlagMeans(l.p2, l.p0, beta);
    SideFlagMeans(l.q2, l.q0, beta);
    OuterMeans(l.p2, l.p1, l.p0, l.q0, tC0);
    OuterMeans(l.q2, l.q1, l.q0, l.p0, tC0);
    assert Avg(l.p0, l.q0) == Avg(l.q0, l.p0) by { AvgCommutes(l.p0, l.q0); }
    var ap, aq := Abs(l.p2 - l.p0) < beta, Abs(l.q2 - l.q0) < beta;
    var tC := tC0 + (if ap then 1 else 0) + (if aq then 1 else 0);
    DeltasMean(l.p1, l.p0, l.q0, l.q1, tC);
    StepClips(l.p0, l.q0, tC, ((l.q0 - l.p0) * 4 + (l.p1 - l.q1) + 4) / 8);
  }

  // Adding the positive part of a step and taking the negative part away clips it.
  lemma StepClips(p0: u8, q0: u8, tC: int, x: int)
    requires 0 <= tC <= 27
    ensures var delta := Clip3(-tC, tC, x);
            && 0 <= Max(delta, 0) <= 27 && 0 <= Max(-delta, 0) <= 27
            && Subs(Adds(p0, Max(delta, 0)), Max(-delta, 0)) == Clip1(255, p0 + delta)
            && Subs(Adds(q0, Max(-delta, 0)), Max(delta, 0)) == Clip1(255, q0 - delta)
  {
  }

  lemma AvgCommutes(a: u8, b: u8)
    ensures Avg(a, b) == Avg(b, a)
  {
  }

  /** Per lane, the saturating luma filter is that of 8.7.2.3, with -1 for bS 0 in place of tC0. */
  lemma LumaSoftMeetsSpec(l: Line, alpha: u8, beta: u8, tC0: int)
    requires Fits(l, 255) && -1 <= tC0 <= 25
    ensures LumaSoft(l, alpha, beta, tC0) == if tC0 < 0 then l else Spec(l, false, false, alpha, beta, tC0, 255)
  {
    hide LumaSoft, Normal;
    IgnoredMeans(l.p1, l.p0, l.q0, l.q1, alpha, beta);
    if tC0 < 0 || !Filtered(l, alpha, beta) {
      SoftIgnores(l, alpha, beta, tC0);
    } else {
      SoftApplies(l, alpha, beta, tC0);
    }
  }

  // (a ^ b) & m for a mask m of 0 or 1
  function XorMask(a: u8, b: u8, m: u8): u8 {
    if m == 0 then 0 else XorBit(a, b)
  }

  /** p'0, p'1 and p'2 of DEBLOCK_LUMA_HARD by averages of bytes with parity fixes. */
  function HardSide(p3: u8, p2: u8, p1: u8, p0: u8, q0: u8, q1: u8): (u8, u8, u8) {
    var fix0 := XorBit(p0, q0);
    var pq0 := Sub(Avg(p0, q0), fix0);
    var and0 := 1 - fix0;
    var p2q1 := Sub(Avg(p2, q1), XorBit(p2, q1));
    var p21q1 := Sub(Avg(p2q1, p1), XorMask(p2q1, p1, and0));
    var p21 := Sub(Avg(p2, p1), XorMask(p2, p1, and0));
    var pp1 := Avg(p21, pq0);
    var fix1 := XorBit(p21, pq0);
    var p210q0 := Sub(pp1, fix1);
    var p3p2 := Sub(Avg(p3, p2), XorMask(p3, p2, 1 - fix1));
    (Avg(p21q1, pq0), pp1, Avg(p3p2, p210q0))
  }

  // The second formula, of a side that is not smooth.
  function HardWeak(p1: u8, p0: u8, q1: u8): u8 {
    Avg(p1, Sub(Avg(p0, q1), XorBit(p0, q1)))
  }

  // condp: both |p2 - p0| - (beta - 1) and |p0 - q0| - (alpha / 4 + 1) saturate to zero.
  predicate HardFlag(p2: u8, p0: u8, q0: u8, alpha: u8, beta: u8) {
    var condpq := Subs(AbsDiff(p0, q0), Avg(Avg(alpha, 1), 0));
    Subs(AbsDiff(p2, p0), Sub(beta, 1)) == 0 && condpq == 0
  }

  /** DEBLOCK_LUMA_HARD, in one lane. */
  function LumaHard(l: Line, alpha: u8, beta: u8): Line
    requires Fits(l, 255)
  {
    var ignore := Ignored(l.p1, l.p0, l.q0, l.q1, alpha, beta);
    var condp, condq := HardFlag(l.p2, l.p0, l.q0, alpha, beta), HardFlag(l.q2, l.q0, l.p0, alpha, beta);
    var p := HardSide(l.p3, l.p2, l.p1, l.p0, l.q0, l.q1);
    var q := HardSide(l.q3, l.q2, l.q1, l.q0, l.p0, l.p1);
    l.(p0 := if ignore then l.p0 else if condp then p.0 else HardWeak(l.p1, l.p0, l.q1),
       q0 := if ignore then l.q0 else if condq then q.0 else HardWeak(l.q1, l.q0, l.p1),
       p1 := if condp && !ignore then p.1 else l.p1, q1 := if condq && !ignore then q.1 else l.q1,
       p2 := if condp && !ignore then p.2 else l.p2, q2 := if condq && !ignore then q.2 else l.q2)
  }

  // The fixed average of a and b plus half of c, rounded down, is half of the three.
  lemma FixedMean(a: u8, b: u8, c: int)
    requires c >= 0
    ensures var fixed := Sub(Avg(a, b), XorMask(a, b, 1 - c % 2));
            0 <= fixed <= 255 && fixed + c / 2 == (a + b + c) / 2
  {
    if c % 2 == 0 {
      FloorMean(a, b);
    } else {
      assert c == 2 * (c / 2) + 1;
      assert Avg(a, b) + c / 2 == (a + b + c) / 2;
    }
  }

  lemma Eighths(a: int, b: int)
    ensures (a / 2 + b + 2) / 4 == (a + 2 * b + 4) / 8
  {
  }

  lemma Quarters(a: int)
    ensures (a / 2 + 1) / 2 == (a + 2) / 4
  {
  }

  // The two fixed averages that both come with (p0 + q0) / 2.
  lemma HardInner(p2: u8, p1: u8, p0: u8, q0: u8, q1: u8)
    ensures var s, p2q1 := p0 + q0, Sub(Avg(p2, q1), XorBit(p2, q1));
            && Sub(Avg(p0, q0), XorBit(p0, q0)) == s / 2 && XorBit(p0, q0) == s % 2
            && Avg(Sub(Avg(p2q1, p1), XorMask(p2q1, p1, 1 - s % 2)),
                s / 2) == (p2 + 2 * p1 + 2 * p0 + 2 * q0 + q1 + 4) / 8
  {
    hide Sub, Avg, XorMask, XorBit;
    FloorMean(p0, q0);
    FloorMean(p2, q1);
    BitOf(p0, q0);
    var s, p2q1 := p0 + q0, (p2 + q1) / 2;
    FixedMean(p2q1, p1, s);
    AvgOf(Sub(Avg(p2q1, p1), XorMask(p2q1, p1, 1 - s % 2)), s / 2);
    Quarters(p2q1 + p1 + s);
    Eighths(p2 + q1, p1 + s);
  }

  lemma HardOuter(p3: u8, p2: u8, p1: u8, p0: u8, q0: u8)
    ensures var s := p0 + q0;
            var p21 := Sub(Avg(p2, p1), XorMask(p2, p1, 1 - s % 2));
            var pp1, fix1 := Avg(p21, s / 2), XorBit(p21, s / 2);
            && pp1 == (p2 + p1 + p0 + q0 + 2) / 4
            && Avg(Sub(Avg(p3, p2), XorMask(p3, p2, 1 - fix1)), Sub(pp1,
                fix1)) == (2 * p3 + 3 * p2 + p1 + p0 + q0 + 4) / 8
  {
    hide Sub, Avg, XorMask, XorBit;
    var s := p0 + q0;
    FixedMean(p2, p1, s);
    var p21 := Sub(Avg(p2, p1), XorMask(p2, p1, 1 - s % 2));
    var c := p21 + s / 2;
    FloorMean(p21, s / 2);
    BitOf(p21, s / 2);
    FixedMean(p3, p2, c);
    AvgOf(p21, s / 2);
    AvgOf(Sub(Avg(p3, p2), XorMask(p3, p2, 1 - c % 2)), c / 2);
    Quarters(p2 + p1 + s);
    Quarters(p3 + p2 + c);
    Eighths(p2 + p1 + s, p3 + p2);
  }

  /** The byte averages are the sums of 8.7.2.4, to the last bit. */
  lemma HardSideMeans(p3: u8, p2: u8, p1: u8, p0: u8, q0: u8, q1: u8)
    ensures HardSide(p3, p2, p1, p0, q0, q1) == StrongSide(p3, p2, p1, p0, q0, q1, true)
  {
    hide Sub, Avg, XorMask, XorBit;
    HardInner(p2, p1, p0, q0, q1);
    HardOuter(p3, p2, p1, p0, q0);
  }

  lemma BitOf(a: u8, b: u8)
    ensures XorBit(a, b) == (a + b) % 2
  {
  }

  lemma AvgOf(a: u8, b: u8)
    ensures Avg(a, b) == (a + b + 1) / 2
  {
  }

  lemma HardWeakMeans(p1: u8, p0: u8, q1: u8)
    ensures HardWeak(p1, p0, q1) == Shr2(2 * p1 + p0 + q1 + 2)
  {
    FloorMean(p0, q1);
    Quarters(2 * p1 + p0 + q1);
  }

  lemma HardFlagMeans(p2: u8, p0: u8, q0: u8, alpha: u8, beta: u8)
    requires beta > 0
    ensures HardFlag(p2, p0, q0, alpha, beta) <==> Abs(p2 - p0) < beta && Abs(p0 - q0) < Shr2(alpha) + 2
  {
    assert Avg(Avg(alpha, 1), 0) == alpha / 4 + 1;
  }

  /** Per lane and for all bytes, the strong luma filter by averages is that of 8.7.2.4. */
  lemma LumaHardMeetsSpec(l: Line, alpha: u8, beta: u8, tC0: nat)
    requires Fits(l, 255)
    ensures LumaHard(l, alpha, beta) == Spec(l, true, false, alpha, beta, tC0, 255)
  {
    IgnoredMeans(l.p1, l.p0, l.q0, l.q1, alpha, beta);
    if Filtered(l, alpha, beta) {
      HardApplies(l, alpha, beta);
    }
  }

  lemma HardApplies(l: Line, alpha: u8, beta: u8)
    requires Fits(l, 255) && beta > 0 && !Ignored(l.p1, l.p0, l.q0, l.q1, alpha, beta)
    ensures LumaHard(l, alpha, beta) == Strong(l, alpha, beta)
  {
    hide HardSide, HardWeak, HardFlag, Ignored, Abs, Shr2, Shr3;
    HardSideMeans(l.p3, l.p2, l.p1, l.p0, l.q0, l.q1);
    HardSideMeans(l.q3, l.q2, l.q1, l.q0, l.p0, l.p1);
    HardWeakMeans(l.p1, l.p0, l.q1);
    HardWeakMeans(l.q1, l.q0, l.p1);
    AbsSymmetric(l.p0, l.q0);
    HardFlagMeans(l.p2, l.p0, l.q0, alpha, beta);
    HardFlagMeans(l.q2, l.q0, l.p0, alpha, beta);
  }

  lemma AbsSymmetric(a: int, b: int)
    ensures Abs(a - b) == Abs(b - a)
  {
  }

  /** DEBLOCK_CHROMA_SOFT and DEBLOCK_CHROMA_HARD, in one lane. */
  function ChromaSoft(l: Line, alpha: u8, beta: u8, tC0: int): Line
    requires Fits(l, 255) && -1 <= tC0 <= 25
  {
    var ftC: u8 := if Ignored(l.p1, l.p0, l.q0, l.q1, alpha, beta) then 0 else tC0 + 1;
    var d := Deltas(l.p1, l.p0, l.q0, l.q1, ftC);
    l.(p0 := Subs(Adds(l.p0, d.0), d.1), q0 := Subs(Adds(l.q0, d.1), d.0))
  }

  function ChromaHard(l: Line, alpha: u8, beta: u8): Line
    requires Fits(l, 255)
  {
    if Ignored(l.p1, l.p0, l.q0, l.q1, alpha, beta) then l
    else l.(p0 := HardWeak(l.p1, l.p0, l.q1), q0 := HardWeak(l.q1, l.q0, l.p1))
  }

  lemma ChromaMeetsSpec(l: Line, alpha: u8, beta: u8, tC0: int)
    requires Fits(l, 255) && -1 <= tC0 <= 25
    ensures ChromaSoft(l, alpha, beta, tC0) == if tC0 < 0 then l else Spec(l, false, true, alpha, beta, tC0, 255)
    ensures ChromaHard(l, alpha, beta) == Spec(l, true, true, alpha, beta, 0, 255)
  {
    hide Deltas, Ignored, HardWeak, Clip1, Clip3, Min, Max, Subs, Adds, Abs;
    IgnoredMeans(l.p1, l.p0, l.q0, l.q1, alpha, beta);
    HardWeakMeans(l.p1, l.p0, l.q1);
    HardWeakMeans(l.q1, l.q0, l.p1);
    SoftKeeps(l.p1, l.p0, l.q0, l.q1, 0);
    SoftKeeps(l.q1, l.q0, l.p0, l.p1, 0);
    var tC := tC0 + 1;
    DeltasMean(l.p1, l.p0, l.q0, l.q1, tC);
    StepClips(l.p0, l.q0, tC, ((l.q0 - l.p0) * 4 + (l.p1 - l.q1) + 4) / 8);
  }

  // The samples across the edge before position at, in steps of across.
  ghost function LineAt(s: array<int>, at: nat, across: nat): Line
    requires 4 * across <= at && at + 3 * across < s.Length
    reads s
  {
    Line(s[at - 4 * across], s[at - 3 * across], s[at - 2 * across], s[at - across],
         s[at], s[at + across], s[at + 2 * across], s[at + 3 * across])
  }

  // The samples that a filter at this position may touch, three on each side.
  predicate Touched(i: int, at: int, across: int) {
    i == at - 3 * across || i == at - 2 * across || i == at - across || i == at || i == at + across || i ==
        at + 2 * across
  }

  // The branches of hbd_filter: chroma, luma of bS 4, luma of a lower bS.
  method HbdChroma(s: array<int>, at: nat, across: nat, bS4: bool, tC0: nat, max: nat)
    requires across > 0 && 4 * across <= at && at + 3 * across < s.Length
    requires Fits(LineAt(s, at, across), max)
    modifies s
    ensures LineAt(s, at, across) == if bS4 then StrongChroma(old(LineAt(s, at,
        across))) else NormalChroma(old(LineAt(s, at, across)), tC0, max)
    ensures forall i | 0 <= i < s.Length && !Touched(i, at, across) :: s[i] == old(s[i])
  {
    hide Clip3, Clip1, Shr1, Shr2, Shr3, Abs;
    var p0, p1, q0, q1 := s[at - across], s[at - 2 * across], s[at], s[at + across];
    if bS4 {
      s[at - across] := Shr2(2 * p1 + p0 + q1 + 2);
      s[at] := Shr2(2 * q1 + q0 + p1 + 2);
    } else {
      var tC: int := tC0 + 1;
      var delta := Clip3(-tC, tC, Shr3((q0 - p0) * 4 + (p1 - q1) + 4));
      s[at - across] := Clip1(max, p0 + delta);
      s[at] := Clip1(max, q0 - delta);
    }
  }

  method HbdStrong(s: array<int>, at: nat, across: nat, alpha: nat, beta: nat, max: nat)
    requires across > 0 && 4 * across <= at && at + 3 * across < s.Length
    requires Fits(LineAt(s, at, across), max)
    modifies s
    ensures LineAt(s, at, across) == Strong(old(LineAt(s, at, across)), alpha, beta)
    ensures forall i | 0 <= i < s.Length && !Touched(i, at, across) :: s[i] == old(s[i])
  {
    hide Clip3, Clip1, Shr1, Shr2, Shr3, Abs;
    var p0, p1, q0, q1 := s[at - across], s[at - 2 * across], s[at], s[at + across];
    var p2, q2 := s[at - 3 * across], s[at + 2 * across];
    var ap, aq := Abs(p2 - p0) < beta, Abs(q2 - q0) < beta;
    var p3, q3 := s[at - 4 * across], s[at + 3 * across];
    var strong := Abs(p0 - q0) < Shr2(alpha) + 2;
    if ap && strong {
      s[at - across] := Shr3(p2 + 2 * p1 + 2 * p0 + 2 * q0 + q1 + 4);
      s[at - 2 * across] := Shr2(p2 + p1 + p0 + q0 + 2);
      s[at - 3 * across] := Shr3(2 * p3 + 3 * p2 + p1 + p0 + q0 + 4);
    } else {
      s[at - across] := Shr2(2 * p1 + p0 + q1 + 2);
    }
    if aq && strong {
      s[at] := Shr3(p1 + 2 * p0 + 2 * q0 + 2 * q1 + q2 + 4);
      s[at + across] := Shr2(p0 + q0 + q1 + q2 + 2);
      s[at + 2 * across] := Shr3(2 * q3 + 3 * q2 + q1 + q0 + p0 + 4);
    } else {
      s[at] := Shr2(2 * q1 + q0 + p1 + 2);
    }
  }

  method HbdNormal(s: array<int>, at: nat, across: nat, tC0: nat, beta: nat, max: nat)
    requires across > 0 && 4 * across <= at && at + 3 * across < s.Length
    requires Fits(LineAt(s, at, across), max)
    modifies s
    ensures LineAt(s, at, across) == Normal(old(LineAt(s, at, across)), beta, tC0, max)
    ensures forall i | 0 <= i < s.Length && !Touched(i, at, across) :: s[i] == old(s[i])
  {
    hide Clip3, Clip1, Shr1, Shr2, Shr3, Abs;
    var p0, p1, q0, q1 := s[at - across], s[at - 2 * across], s[at], s[at + across];
    var p2, q2 := s[at - 3 * across], s[at + 2 * across];
    var ap, aq := Abs(p2 - p0) < beta, Abs(q2 - q0) < beta;
    var tC: int := tC0 + (if ap then 1 else 0) + (if aq then 1 else 0);
    var delta := Clip3(-tC, tC, Shr3((q0 - p0) * 4 + (p1 - q1) + 4));
    OuterInRange(p2, p1, p0, q0, tC0, max);
    OuterInRange(q2, q1, q0, p0, tC0, max);
    s[at - across] := Clip1(max, p0 + delta);
    s[at] := Clip1(max, q0 - delta);
    var t: int := tC0;
    if ap {
      s[at - 2 * across] := p1 + Clip3(-t, t, Shr1(p2 + Shr1(p0 + q0 + 1) - 2 * p1));
    }
    if aq {
      s[at + across] := q1 + Clip3(-t, t, Shr1(q2 + Shr1(p0 + q0 + 1) - 2 * q1));
    }
  }

  /** hbd_filter, in place on samples of up to max; positions off the line keep their samples. */
  method HbdFilter(s: array<int>, at: nat, across: nat, bS4: bool, tC0: nat, alpha: nat, beta: nat, chroma: bool,
        max: nat)
    requires across > 0 && 4 * across <= at && at + 3 * across < s.Length
    requires Fits(LineAt(s, at, across), max)
    modifies s
    ensures LineAt(s, at, across) == Spec(old(LineAt(s, at, across)), bS4, chroma, alpha, beta, tC0, max)
    ensures forall i | 0 <= i < s.Length && !Touched(i, at, across) :: s[i] == old(s[i])
  {
    hide Clip3, Clip1, Shr1, Shr2, Shr3, Abs;
    var p0, p1, q0, q1 := s[at - across], s[at - 2 * across], s[at], s[at + across];
    if Abs(p0 - q0) >= alpha || Abs(p1 - p0) >= beta || Abs(q1 - q0) >= beta {
      return;
    }
    if chroma {
      HbdChroma(s, at, across, bS4, tC0, max);
    } else if bS4 {
      HbdStrong(s, at, across, alpha, beta, max);
    } else {
      HbdNormal(s, at, across, tC0, beta, max);
    }
  }
}
