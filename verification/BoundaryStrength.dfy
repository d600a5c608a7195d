/**
 * The boundary strength of inter blocks without coefficients (clause 8.7.2.1 of H.264): byte minima over
 * references and motion vectors taken in parallel and in cross, against the case analysis.
 */
module BoundaryStrength {
  import opened Arithmetic
  import opened Lanes

  /** The two references of a block with their vectors; an unused list has reference -1. */
  datatype Block = Block(ref0: int, ref1: int, mv0: Mv, mv1: Mv)

  // Picture numbers fit a byte.
  ghost predicate Bytes(b: Block) {
    -1 <= b.ref0 < 128 && -1 <= b.ref1 < 128
  }

  // The vectors of unused lists are zero.
  ghost predicate Clean(b: Block) {
    && Bytes(b)
    && (b.ref0 < 0 ==> b.mv0 == Mv(0, 0)) && (b.ref1 < 0 ==> b.mv1 == Mv(0, 0))
  }

  /** MV_FAR, with the vertical limit of frames (4) or fields (2). */
  predicate Far(a: Mv, b: Mv, lim: nat) {
    Abs(a.x - b.x) >= 4 || Abs(a.y - b.y) >= lim
  }

  function Used(r: int): nat {
    if r >= 0 then 1 else 0
  }

  /** The last part of mbaff_bS: 0 or 1 for inter blocks without coefficients in pictures of one kind. */
  function Scalar(p: Block, q: Block, lim: nat): nat {
    var np, nq := Used(p.ref0) + Used(p.ref1), Used(q.ref0) + Used(q.ref1);
    if np != nq then 1
    else if np == 1 then
      var refp, refq := if p.ref0 >= 0 then p.ref0 else p.ref1, if q.ref0 >= 0 then q.ref0 else q.ref1;
      var mvp, mvq := if p.ref0 >= 0 then p.mv0 else p.mv1, if q.ref0 >= 0 then q.mv0 else q.mv1;
      if refp != refq || Far(mvp, mvq, lim) then 1 else 0
    else if np == 0 then 0
    else if !((p.ref0 == q.ref0 && p.ref1 == q.ref1) || (p.ref0 == q.ref1 && p.ref1 == q.ref0)) then 1
    else if p.ref0 != p.ref1 then
      if p.ref0 == q.ref0 then if Far(p.mv0, q.mv0, lim) || Far(p.mv1, q.mv1, lim) then 1 else 0
      else if Far(p.mv0, q.mv1, lim) || Far(p.mv1, q.mv0, lim) then 1 else 0
    else if (Far(p.mv0, q.mv0, lim) || Far(p.mv1, q.mv1, lim)) && (Far(p.mv0, q.mv1, lim) || Far(p.mv1, q.mv0, lim))
    then 1 else 0
  }

  // Vectors less than a sample apart across, and less than the limit apart in height.
  predicate Close(a: Mv, b: Mv, lim: nat) {
    -4 < a.x - b.x < 4 && a.y - b.y < lim && b.y - a.y < lim
  }

  /**
   * The case analysis in words: bS is 0 exactly if the lists used by one block can be paired with those used by
   * the other, in order or crosswise, such that pairs have the same picture and close vectors.
   */
  lemma ScalarMeans(p: Block, q: Block, lim: nat)
    requires Bytes(p) && Bytes(q)
    ensures Scalar(p, q, lim) <= 1
    ensures Scalar(p, q, lim) == 0 <==>
            || (Alike(p.ref0, p.mv0, q.ref0, q.mv0, lim) && Alike(p.ref1, p.mv1, q.ref1, q.mv1, lim))
            || (Alike(p.ref0, p.mv0, q.ref1, q.mv1, lim) && Alike(p.ref1, p.mv1, q.ref0, q.mv0, lim))
  {
    hide Far, Close;
    FarMeans(p.mv0, q.mv0, lim);
    FarMeans(p.mv0, q.mv1, lim);
    FarMeans(p.mv1, q.mv0, lim);
    FarMeans(p.mv1, q.mv1, lim);
  }

  // Two lists that are both unused, or used with the same picture and close vectors.
  predicate Alike(r: int, a: Mv, s: int, b: Mv, lim: nat) {
    if r >= 0 then s == r && Close(a, b, lim) else s < 0
  }

  lemma FarMeans(a: Mv, b: Mv, lim: nat)
    ensures Far(a, b, lim) <==> !Close(a, b, lim)
  {
  }

  // | and ^ on bytes
  function BitOr(a: nat, b: nat): nat {
    if a == 0 && b == 0 then 0 else 2 * BitOr(a / 2, b / 2) + (if a % 2 == 1 || b % 2 == 1 then 1 else 0)
  }

  function BitXor(a: nat, b: nat): nat {
    if a == 0 && b == 0 then 0 else 2 * BitXor(a / 2, b / 2) + (if a % 2 != b % 2 then 1 else 0)
  }

  lemma {:induction false} OrIsZero(a: nat, b: nat)
    ensures BitOr(a, b) == 0 <==> a == 0 && b == 0
  {
    if a != 0 || b != 0 {
      OrIsZero(a / 2, b / 2);
    }
  }

  lemma {:induction false} XorIsZero(a: nat, b: nat)
    ensures BitXor(a, b) == 0 <==> a == b
  {
    if a != 0 || b != 0 {
      XorIsZero(a / 2, b / 2);
    }
  }

  // References as bytes differ.
  function Neq(a: int, b: int): nat {
    BitXor(a % 256, b % 256)
  }

  lemma NeqIsZero(a: int, b: int)
    requires -1 <= a < 128 && -1 <= b < 128
    ensures Neq(a, b) == 0 <==> a == b
  {
    XorIsZero(a % 256, b % 256);
  }

  // packabd16, in one component: the difference saturated to 16, then 8 bits, and its magnitude.
  function PackAbd(a: int16, b: int16): u8 {
    Abs(Clip3(-128, 127, Sat16(a - b)))
  }

  // packs16 on the two bytes of a lane.
  function PackPair(x: u8, y: u8): int {
    var lane := x + 256 * y;
    Clip3(-128, 127, if lane < 0x8000 then lane else lane - 0x1_0000)
  }

  /** What is left of the greater of two differences above the limits, in one byte. */
  function FarByte(a0: Mv, b0: Mv, a1: Mv, b1: Mv, lim: nat): int
    requires lim == 2 || lim == 4
  {
    var x := Max(PackAbd(a0.x, b0.x), PackAbd(a1.x, b1.x));
    var y := Max(PackAbd(a0.y, b0.y), PackAbd(a1.y, b1.y));
    PackPair(Subs(x, 3), Subs(y, lim - 1))
  }

  lemma FarByteMeans(a0: Mv, b0: Mv, a1: Mv, b1: Mv, lim: nat)
    requires lim == 2 || lim == 4
    ensures 0 <= FarByte(a0, b0, a1, b1, lim) < 128
    ensures FarByte(a0, b0, a1, b1, lim) == 0 <==> !Far(a0, b0, lim) && !Far(a1, b1, lim)
  {
    PackAbdMeans(a0.x, b0.x);
    PackAbdMeans(a1.x, b1.x);
    PackAbdMeans(a0.y, b0.y);
    PackAbdMeans(a1.y, b1.y);
  }

  lemma PackAbdMeans(a: int16, b: int16)
    ensures PackAbd(a, b) == Min(Abs(a - b), if a < b then 128 else 127)
  {
  }

  /** Edges of B macroblocks between different 8x8 blocks: four minima over two differences each. */
  predicate OuterIsZero(p: Block, q: Block, lim: nat)
    requires lim == 2 || lim == 4
  {
    var refsP := BitOr(Neq(p.ref0, q.ref0), Neq(p.ref1, q.ref1));
    var refsC := BitOr(Neq(p.ref0, q.ref1), Neq(p.ref1, q.ref0));
    var mvsP := FarByte(p.mv0, q.mv0, p.mv1, q.mv1, lim);
    var mvsC := FarByte(p.mv0, q.mv1, p.mv1, q.mv0, lim);
    FarByteMeans(p.mv0, q.mv0, p.mv1, q.mv1, lim);
    FarByteMeans(p.mv0, q.mv1, p.mv1, q.mv0, lim);
    var neq3 := BitOr(Min(refsP, refsC), Min(mvsP, mvsC));
    var neq4 := BitOr(Min(refsP, mvsC), Min(mvsP, refsC));
    BitOr(neq3, neq4) == 0
  }

  /** Edges inside an 8x8 block, whose two sides have the same references. */
  predicate InnerIsZero(p: Block, q: Block, lim: nat)
    requires lim == 2 || lim == 4
  {
    var mvsP := FarByte(p.mv0, q.mv0, p.mv1, q.mv1, lim);
    var mvsC := FarByte(p.mv0, q.mv1, p.mv1, q.mv0, lim);
    FarByteMeans(p.mv0, q.mv1, p.mv1, q.mv0, lim);
    Min(mvsP, BitOr(Neq(p.ref0, p.ref1), mvsC)) == 0
  }

  /** Edges between macroblocks without a second list. */
  predicate SingleIsZero(p: Block, q: Block, lim: nat)
    requires lim == 2 || lim == 4
  {
    var mvs := FarByte(p.mv0, q.mv0, p.mv0, q.mv0, lim);
    FarByteMeans(p.mv0, q.mv0, p.mv0, q.mv0, lim);
    BitOr(Neq(p.ref0, q.ref0), mvs) == 0
  }

  // The formula in words: one of the two pairings matches in references and vectors.
  lemma OuterMeans(p: Block, q: Block, lim: nat)
    requires (lim == 2 || lim == 4) && Bytes(p) && Bytes(q)
    ensures OuterIsZero(p, q, lim) <==>
            (p.ref0 == q.ref0 && p.ref1 == q.ref1 && !Far(p.mv0, q.mv0, lim) && !Far(p.mv1, q.mv1, lim))
            || (p.ref0 == q.ref1 && p.ref1 == q.ref0 && !Far(p.mv0, q.mv1, lim) && !Far(p.mv1, q.mv0, lim))
  {
    hide Neq, FarByte, Far;
    NeqIsZero(p.ref0, q.ref0);
    NeqIsZero(p.ref1, q.ref1);
    NeqIsZero(p.ref0, q.ref1);
    NeqIsZero(p.ref1, q.ref0);
    OrIsZero(Neq(p.ref0, q.ref0), Neq(p.ref1, q.ref1));
    OrIsZero(Neq(p.ref0, q.ref1), Neq(p.ref1, q.ref0));
    var refsP := BitOr(Neq(p.ref0, q.ref0), Neq(p.ref1, q.ref1));
    var refsC := BitOr(Neq(p.ref0, q.ref1), Neq(p.ref1, q.ref0));
    var mvsP := FarByte(p.mv0, q.mv0, p.mv1, q.mv1, lim);
    var mvsC := FarByte(p.mv0, q.mv1, p.mv1, q.mv0, lim);
    FarByteMeans(p.mv0, q.mv0, p.mv1, q.mv1, lim);
    FarByteMeans(p.mv0, q.mv1, p.mv1, q.mv0, lim);
    OrIsZero(Min(refsP, refsC), Min(mvsP, mvsC));
    OrIsZero(Min(refsP, mvsC), Min(mvsP, refsC));
    OrIsZero(BitOr(Min(refsP, refsC), Min(mvsP, mvsC)), BitOr(Min(refsP, mvsC), Min(mvsP, refsC)));
  }

  /** The vector formula gives bS 0 exactly where the case analysis does. */
  lemma OuterMeetsScalar(p: Block, q: Block, lim: nat)
    requires (lim == 2 || lim == 4) && Clean(p) && Clean(q)
    ensures OuterIsZero(p, q, lim) <==> Scalar(p, q, lim) == 0
  {
    hide OuterIsZero, Far;
    OuterMeans(p, q, lim);
    NotFar(Mv(0, 0), lim);
  }

  lemma NotFar(a: Mv, lim: nat)
    requires lim > 0
    ensures !Far(a, a, lim)
  {
  }

  lemma InnerMeetsScalar(p: Block, q: Block, lim: nat)
    requires (lim == 2 || lim == 4) && Clean(p) && Clean(q) && p.ref0 == q.ref0 && p.ref1 == q.ref1
    ensures InnerIsZero(p, q, lim) <==> Scalar(p, q, lim) == 0
  {
    hide FarByte, Far, Neq, BitOr;
    NotFar(Mv(0, 0), lim);
    NeqIsZero(p.ref0, p.ref1);
    FarByteMeans(p.mv0, q.mv0, p.mv1, q.mv1, lim);
    FarByteMeans(p.mv0, q.mv1, p.mv1, q.mv0, lim);
    OrIsZero(Neq(p.ref0, p.ref1), FarByte(p.mv0, q.mv1, p.mv1, q.mv0, lim));
  }

  lemma SingleMeetsScalar(p: Block, q: Block, lim: nat)
    requires (lim == 2 || lim == 4) && Clean(p) && Clean(q) && p.ref0 >= 0 && q.ref0 >= 0 && p.ref1 < 0 && q.ref1 < 0
    ensures SingleIsZero(p, q, lim) <==> Scalar(p, q, lim) == 0
  {
    hide FarByte, Far, Neq, BitOr;
    NeqIsZero(p.ref0, q.ref0);
    FarByteMeans(p.mv0, q.mv0, p.mv0, q.mv0, lim);
    OrIsZero(Neq(p.ref0, q.ref0), FarByte(p.mv0, q.mv0, p.mv0, q.mv0, lim));
  }

  // The reference and vector of a block with one list, and the vector of its other list.
  function OnlyRef(b: Block): int {
    if b.ref0 >= 0 then b.ref0 else b.ref1
  }

  function OnlyMv(b: Block): Mv {
    if b.ref0 >= 0 then b.mv0 else b.mv1
  }

  function OtherMv(b: Block): Mv {
    if b.ref0 >= 0 then b.mv1 else b.mv0
  }

  /**
   * Blocks whose unused vectors matter: both have one list, with the same reference and near vectors, while the
   * other vectors are far apart; or both have none, and the vectors are far apart in parallel and in cross.
   */
  predicate UnusedFar(p: Block, q: Block, lim: nat) {
    var np, nq := Used(p.ref0) + Used(p.ref1), Used(q.ref0) + Used(q.ref1);
    if np == 1 && nq == 1 then
      OnlyRef(p) == OnlyRef(q) && !Far(OnlyMv(p), OnlyMv(q), lim) && Far(OtherMv(p), OtherMv(q), lim)
    else
      && np == 0 && nq == 0 && (Far(p.mv0, q.mv0, lim) || Far(p.mv1, q.mv1, lim))
      && (Far(p.mv0, q.mv1, lim) || Far(p.mv1, q.mv0, lim))
  }

  /** Whatever the vectors in unused lists are: the two forms differ exactly on such blocks. */
  lemma UnusedVectors(p: Block, q: Block, lim: nat)
    requires (lim == 2 || lim == 4) && Bytes(p) && Bytes(q)
    ensures (OuterIsZero(p, q, lim) <==> Scalar(p, q, lim) == 0) <==> !UnusedFar(p, q, lim)
    ensures p.ref0 == q.ref0 && p.ref1 == q.ref1 ==> (InnerIsZero(p, q, lim) <==> OuterIsZero(p, q, lim))
  {
    hide OuterIsZero, Far, FarByte, Neq, BitOr;
    OuterMeans(p, q, lim);
    NeqIsZero(p.ref0, p.ref1);
    FarByteMeans(p.mv0, q.mv0, p.mv1, q.mv1, lim);
    FarByteMeans(p.mv0, q.mv1, p.mv1, q.mv0, lim);
    OrIsZero(Neq(p.ref0, p.ref1), FarByte(p.mv0, q.mv1, p.mv1, q.mv0, lim));
  }

  /** Zero vectors in unused lists matter: left as they are, they make an edge of bS 0 look like bS 1. */
  lemma UnusedVectorMatters()
    ensures var p, q := Block(3, -1, Mv(0, 0), Mv(9, 9)), Block(3, -1, Mv(0, 0), Mv(0, 0));
            Scalar(p, q, 4) == 0 && !OuterIsZero(p, q, 4)
  {
    var p, q := Block(3, -1, Mv(0, 0), Mv(9, 9)), Block(3, -1, Mv(0, 0), Mv(0, 0));
    hide OuterIsZero;
    OuterMeans(p, q, 4);
  }
}
