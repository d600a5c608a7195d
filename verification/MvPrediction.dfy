/**
 * Motion vector prediction (clauses 8.4.1.1, 8.4.1.2.2 and 8.4.1.3 of H.264): decision trees and
 * branch-free selections, against the rules on neighbouring partitions.
 */
module MvPrediction {
  import opened Arithmetic
  import opened Lanes

  /** A neighbouring partition: its reference index, negative if it has none, and its vector. */
  datatype Neighbour = Neighbour(ref: int, mv: Mv)

  const ZERO := Mv(0, 0)

  /** median16 in one lane, and on the two components. */
  function Median1(a: int16, b: int16, c: int16): int16 {
    Max(Min(a, b), Min(Max(a, b), c))
  }

  function Median(a: Mv, b: Mv, c: Mv): Mv {
    Mv(Median1(a.x, b.x, c.x), Median1(a.y, b.y, c.y))
  }

  // The median of three is one of them, with one of the others on each side; the order does not matter.
  lemma MedianMeans(a: int16, b: int16, c: int16)
    ensures var m := Median1(a, b, c);
            && (m == a || m == b || m == c) && (m <= a || m <= b) && (m >= a || m >= b)
            && (m <= b || m <= c) && (m >= b || m >= c) && (m <= a || m <= c) && (m >= a || m >= c)
            && m == Median1(b, a, c) == Median1(a, c, b)
  {
  }

  // --- the standard ---

  function Equal(refIdx: int, n: Neighbour): nat {
    if n.ref == refIdx then 1 else 0
  }

  /** 8.4.1.3.1: the only neighbour with this reference, else the median; onlyA if B, C and D do not exist. */
  function Spec(refIdx: int, a: Neighbour, b: Neighbour, c: Neighbour, onlyA: bool): Mv {
    if onlyA then a.mv
    else if Equal(refIdx, a) + Equal(refIdx, b) + Equal(refIdx, c) == 1 then
      if a.ref == refIdx then a.mv else if b.ref == refIdx then b.mv else c.mv
    else Median(a.mv, b.mv, c.mv)
  }

  /** With one neighbour of the same reference its vector counts, otherwise the vector in the middle. */
  lemma SpecMeans(refIdx: int, a: Neighbour, b: Neighbour, c: Neighbour, onlyA: bool)
    ensures onlyA ==> Spec(refIdx, a, b, c, onlyA) == a.mv
    ensures a.ref == refIdx && b.ref != refIdx && c.ref != refIdx ==> Spec(refIdx, a, b, c, onlyA) == a.mv
    ensures a.ref != refIdx && b.ref == refIdx && c.ref != refIdx && !onlyA ==> Spec(refIdx, a, b, c, onlyA) == b.mv
    ensures a.ref != refIdx && b.ref != refIdx && c.ref == refIdx && !onlyA ==> Spec(refIdx, a, b, c, onlyA) == c.mv
    ensures !onlyA && (a.ref == refIdx <==> b.ref == refIdx) && (b.ref == refIdx <==> c.ref == refIdx) ==>
              Middle(Spec(refIdx, a, b, c, onlyA), a.mv, b.mv, c.mv)
    ensures !onlyA && ((a.ref == refIdx && b.ref == refIdx) || (a.ref == refIdx && c.ref == refIdx)
                       || (b.ref == refIdx && c.ref == refIdx)) ==>
              Middle(Spec(refIdx, a, b, c, onlyA), a.mv, b.mv, c.mv)
  {
    hide Median1;
    MedianMeans(a.mv.x, b.mv.x, c.mv.x);
    MedianMeans(a.mv.y, b.mv.y, c.mv.y);
  }

  // In each component one of the three, neither below nor above two of them.
  predicate Middle(m: Mv, a: Mv, b: Mv, c: Mv) {
    Middle1(m.x, a.x, b.x, c.x) && Middle1(m.y, a.y, b.y, c.y)
  }

  predicate Middle1(m: int, a: int, b: int, c: int) {
    || (m == a && (b <= m <= c || c <= m <= b))
    || (m == b && (a <= m <= c || c <= m <= a))
    || (m == c && (a <= m <= b || b <= m <= a))
  }

  /** 8.4.1.3 for partitions of 8x16 and 16x8: one neighbour goes first. */
  function SpecDirected(first: Neighbour, refIdx: int, a: Neighbour, b: Neighbour, c: Neighbour, onlyA: bool): Mv {
    if first.ref == refIdx then first.mv else Spec(refIdx, a, b, c, onlyA)
  }

  // What onlyA means for the neighbours: those that do not exist have no reference.
  predicate Consistent(refIdx: int, a: Neighbour, b: Neighbour, c: Neighbour, onlyA: bool) {
    refIdx >= 0 && (onlyA ==> b.ref < 0 && c.ref < 0)
  }

  // --- the code ---

  // 0xe9 >> eq & 1: none, or at least two of three.
  function MedianBit(eq: nat): bool {
    eq == 0 || eq == 3 || eq >= 5
  }

  /** decode_inter_16x16, with C standing for D where C does not exist. */
  function Tree16x16(refIdx: int, a: Neighbour, b: Neighbour, c: Neighbour, onlyA: bool): Mv {
    var eqA := if refIdx == a.ref || onlyA then 1 else 0;
    var eq := eqA + Equal(refIdx, b) * 2 + Equal(refIdx, c) * 4;
    if MedianBit(eq) then Median(a.mv, b.mv, c.mv)
    else if eq == 1 then a.mv
    else if eq == 2 then b.mv
    else c.mv
  }

  function Tree8x16Left(refIdx: int, a: Neighbour, b: Neighbour, c: Neighbour, onlyA: bool): Mv {
    if refIdx == a.ref || onlyA then a.mv
    else if refIdx == b.ref then if refIdx == c.ref then Median(a.mv, b.mv, c.mv) else b.mv
    else if refIdx != c.ref then Median(a.mv, b.mv, c.mv) else c.mv
  }

  function Tree8x16Right(refIdx: int, a: Neighbour, b: Neighbour, c: Neighbour, onlyA: bool): Mv {
    if refIdx == c.ref then c.mv
    else if refIdx == b.ref then if refIdx == a.ref then Median(a.mv, b.mv, c.mv) else b.mv
    else if refIdx != a.ref && !onlyA then Median(a.mv, b.mv, c.mv) else a.mv
  }

  function Tree16x8Top(refIdx: int, a: Neighbour, b: Neighbour, c: Neighbour, onlyA: bool): Mv {
    var eqA := refIdx == a.ref || onlyA;
    if refIdx == b.ref then b.mv
    else if refIdx == c.ref then if eqA then Median(a.mv, b.mv, c.mv) else c.mv
    else if !eqA then Median(a.mv, b.mv, c.mv) else a.mv
  }

  function Tree16x8Bottom(refIdx: int, a: Neighbour, b: Neighbour, c: Neighbour): Mv {
    if refIdx == a.ref then a.mv
    else if refIdx == b.ref then if refIdx == c.ref then Median(a.mv, b.mv, c.mv) else b.mv
    else if refIdx != c.ref then Median(a.mv, b.mv, c.mv) else c.mv
  }

  /** The trees are the rules of the standard, for all references and vectors. */
  lemma TreesMeetSpec(refIdx: int, a: Neighbour, b: Neighbour, c: Neighbour, onlyA: bool)
    requires Consistent(refIdx, a, b, c, onlyA)
    ensures Tree16x16(refIdx, a, b, c, onlyA) == Spec(refIdx, a, b, c, onlyA)
    ensures Tree8x16Left(refIdx, a, b, c, onlyA) == SpecDirected(a, refIdx, a, b, c, onlyA)
    ensures Tree8x16Right(refIdx, a, b, c, onlyA) == SpecDirected(c, refIdx, a, b, c, onlyA)
    ensures Tree16x8Top(refIdx, a, b, c, onlyA) == SpecDirected(b, refIdx, a, b, c, onlyA)
    ensures Tree16x8Bottom(refIdx, a, b, c) == SpecDirected(a, refIdx, a, b, c, false)
  {
    hide Median;
  }

  /** 8.4.1.1: the vector of P_Skip, zero at the border or next to a resting block of reference 0. */
  function SpecSkip(a: Neighbour, b: Neighbour, c: Neighbour, border: bool): Mv {
    if border || (a.ref == 0 && a.mv == ZERO) || (b.ref == 0 && b.mv == ZERO) then ZERO
    else Spec(0, a, b, c, false)
  }

  /** decode_P_skip; refIdxN | mvN is zero if both are. */
  function Skip(a: Neighbour, b: Neighbour, c: Neighbour, border: bool): Mv {
    if !(a.ref == 0 && a.mv == ZERO) && !(b.ref == 0 && b.mv == ZERO) && !border then
      var eq := Equal(0, a) + Equal(0, b) * 2 + Equal(0, c) * 4;
      if MedianBit(eq) then Median(a.mv, b.mv, c.mv)
      else if eq != 4 then if eq == 1 then a.mv else b.mv
      else c.mv
    else ZERO
  }

  lemma SkipMeetsSpec(a: Neighbour, b: Neighbour, c: Neighbour, border: bool)
    ensures Skip(a, b, c, border) == SpecSkip(a, b, c, border)
  {
    hide Median;
  }

  // --- spatial direct mode ---

  // MinPositive (8-184)
  function MinPositive(x: int, y: int): int {
    if x >= 0 && y >= 0 then Min(x, y) else Max(x, y)
  }

  /** The lower of the indices that are not negative, if there are any. */
  lemma MinPositiveMeans(x: int, y: int)
    ensures var m := MinPositive(x, y);
            && (m == x || m == y) && (m < 0 <==> x < 0 && y < 0)
            && (x >= 0 ==> m <= x) && (y >= 0 ==> m <= y)
  {
  }

  /** P_Skip rests at the border of the picture, or beside or below a resting block of the first picture. */
  lemma SkipRests(a: Neighbour, b: Neighbour, c: Neighbour, border: bool)
    ensures border ==> Skip(a, b, c, border) == Mv(0, 0)
    ensures a == Neighbour(0, Mv(0, 0)) || b == Neighbour(0, Mv(0, 0)) ==> Skip(a, b, c, border) == Mv(0, 0)
    ensures !border && a != Neighbour(0, Mv(0, 0)) && b != Neighbour(0, Mv(0, 0)) ==>
              Skip(a, b, c, border) == Spec(0, a, b, c, false)
  {
    SkipMeetsSpec(a, b, c, border);
  }

  // A reference index as an unsigned byte.
  function AsByte(x: int): nat {
    x % 256
  }

  /** The selection in one list: unsigned minima, carrying the vector along, and the median if it is shared. */
  function Select(a: Neighbour, b: Neighbour, c: Neighbour): Neighbour {
    var cmpAB := AsByte(a.ref) < AsByte(b.ref);
    var m, refM := if cmpAB then a else b, if cmpAB then b.ref else a.ref;
    var n := if AsByte(m.ref) < AsByte(c.ref) then m else c;
    var shared := m.ref == c.ref || n.ref == refM;
    Neighbour(n.ref, if shared then Median(a.mv, b.mv, c.mv) else n.mv)
  }

  /** The reference and the vector are those of 8.4.1.2.2, which predicts as a 16x16 partition does. */
  lemma SelectMeetsSpec(a: Neighbour, b: Neighbour, c: Neighbour)
    requires -2 <= a.ref < 128 && -2 <= b.ref < 128 && -2 <= c.ref < 128
    ensures var r, refIdx := Select(a, b, c), MinPositive(a.ref, MinPositive(b.ref, c.ref));
            if refIdx >= 0 then r == Neighbour(refIdx, Spec(refIdx, a, b, c, false)) else r.ref < 0
    ensures a.mv == b.mv == c.mv == ZERO ==> Select(a, b, c).mv == ZERO
  {
    assert AsByte(a.ref) == (if a.ref < 0 then a.ref + 256 else a.ref);
    assert AsByte(b.ref) == (if b.ref < 0 then b.ref + 256 else b.ref);
    assert AsByte(c.ref) == (if c.ref < 0 then c.ref + 256 else c.ref);
  }
}
