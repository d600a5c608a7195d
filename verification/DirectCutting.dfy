/**
 * The loop that cuts the 4x4 blocks of spatial direct prediction, of both lists, into rectangles that
 * are predicted at once: blocks 0 to 15 in z-order for list 0, 16 to 31 for list 1.
 */
module DirectCutting {

  // --- the tables ---

  /** The masks of the eight shapes as sets of bits, largest first, with their widths and heights in samples. */
  function Mask(shape: nat): set<nat>
    requires shape < 8
  {
    match shape
    case 0 => {0, 1, 2, 3, 4, 5, 6, 7, 8, 9, 10, 11, 12, 13, 14, 15} // 0xffff
    case 1 => {0, 1, 2, 3, 4, 5, 6, 7} // 0xff
    case 2 => {0, 1, 2, 3, 8, 9, 10, 11} // 0xf0f
    case 3 => {0, 1, 2, 3} // 0xf
    case 4 => {0, 1, 4, 5} // 0x33
    case 5 => {0, 1} // 0x3
    case 6 => {0, 2} // 0x5
    case _ => {0} // 0x1
  }

  function Width(shape: nat): nat {
    match shape
    case 0 => 16 case 1 => 16 case 2 => 8 case 3 => 8
    case 4 => 16 case 5 => 8 case 6 => 4 case _ => 4
  }

  function Height(shape: nat): nat {
    match shape
    case 0 => 16 case 1 => 8 case 2 => 16 case 3 => 8
    case 4 => 4 case 5 => 4 case 6 => 8 case _ => 4
  }

  /** Which of the following blocks a rectangle may take from each block. */
  function Scope(b: nat): set<nat>
    requires b < 16
  {
    match b
    case 0 => {0, 1, 2, 3, 4, 5, 6, 7, 8, 9, 10, 11, 12, 13, 14, 15} // 0xffff
    case 1 => {0, 2, 8, 10} // 0x505
    case 2 => {0, 1, 4, 5} // 0x33
    case 3 => {0} // 0x1
    case 4 => {0, 1, 2, 3, 8, 9, 10, 11} // 0xf0f
    case 5 => {0, 2, 8, 10} // 0x505
    case 6 => {0, 1} // 0x3
    case 7 => {0} // 0x1
    case 8 => {0, 1, 2, 3, 4, 5, 6, 7} // 0xff
    case 9 => {0, 2} // 0x5
    case 10 => {0, 1, 4, 5} // 0x33
    case 11 => {0} // 0x1
    case 12 => {0, 1, 2, 3} // 0xf
    case 13 => {0, 2} // 0x5
    case 14 => {0, 1} // 0x3
    case _ => {0} // 0x1
  }

  // --- positions in z-order (x444 and y444) ---

  function X(b: nat): nat {
    match b
    case 0 => 0 case 1 => 4 case 2 => 0 case 3 => 4
    case 4 => 8 case 5 => 12 case 6 => 8 case 7 => 12
    case 8 => 0 case 9 => 4 case 10 => 0 case 11 => 4
    case 12 => 8 case 13 => 12 case 14 => 8 case _ => 12
  }

  function Y(b: nat): nat {
    match b
    case 0 => 0 case 1 => 0 case 2 => 4 case 3 => 4
    case 4 => 0 case 5 => 0 case 6 => 4 case 7 => 4
    case 8 => 8 case 9 => 8 case 10 => 12 case 11 => 12
    case 12 => 8 case 13 => 8 case 14 => 12 case _ => 12
  }

  // The mask of a shape is its rectangle at block 0.
  lemma MaskMeans(shape: nat, k: nat)
    requires shape < 8 && k < 16
    ensures k in Mask(shape) <==> X(k) < Width(shape) && Y(k) < Height(shape)
  {
  }

  // Offsets in scope add up in both coordinates.
  lemma Additive(b: nat, k: nat)
    requires b < 16 && k in Scope(b)
    ensures b + k < 16 && X(b + k) == X(b) + X(k) && Y(b + k) == Y(b) + Y(k)
  {
  }

  lemma PositionUnique(b: nat, c: nat)
    requires b < 16 && c < 16 && X(b) == X(c) && Y(b) == Y(c)
    ensures b == c
  {
  }

  // Between two blocks there is one at the difference of their positions from block 0.
  lemma Difference(b: nat, c: nat) returns (k: nat)
    requires b < 16 && c < 16 && X(b) <= X(c) && Y(b) <= Y(c)
    ensures k < 16 && X(k) == X(c) - X(b) && Y(k) == Y(c) - Y(b)
  {
    k := At((X(c) - X(b)) / 4, (Y(c) - Y(b)) / 4);
  }

  // The block at a position, in units of 4 samples.
  function At(x: nat, y: nat): nat {
    (if x == 0 then 0 else if x == 1 then 1 else if x == 2 then 4 else 5)
    + if y == 0 then 0 else if y == 1 then 2 else if y == 2 then 8 else 10
  }

  /** A mask within the scope of a block is a rectangle at this block, of the shape's width and height. */
  lemma MaskIsRectangle(b: nat, shape: nat, c: nat)
    requires b < 16 && c < 16 && shape < 8 && Mask(shape) <= Scope(b)
    ensures (c >= b && c - b in Mask(shape)) <==>
            (X(b) <= X(c) < X(b) + Width(shape) && Y(b) <= Y(c) < Y(b) + Height(shape))
  {
    hide Mask, Scope, X, Y, Width, Height;
    if c >= b && c - b in Mask(shape) {
      MaskMeans(shape, c - b);
      Additive(b, c - b);
    }
    if X(b) <= X(c) < X(b) + Width(shape) && Y(b) <= Y(c) < Y(b) + Height(shape) {
      var k := Difference(b, c);
      MaskMeans(shape, k);
      Additive(b, k);
      PositionUnique(b + k, c);
    }
  }

  // --- the loop ---

  /** A rectangle: its first block (0 to 31) and its shape. */
  datatype Cut = Cut(block: nat, shape: nat)

  function Blocks(r: Cut): set<nat>
    requires r.shape < 8
  {
    set k | k in Mask(r.shape) :: r.block + k
  }

  // The test of the code: all blocks of the shape are flagged and in scope, with one value of colZero.
  predicate Matches(flags: set<nat>, colZero: set<nat>, i: nat, shape: nat)
    requires shape < 8
  {
    && (forall k | k in Mask(shape) :: k in Scope(i % 16) && i + k in flags)
    && ((forall k | k in Mask(shape) :: i + k in colZero) || forall k | k in Mask(shape) :: i + k !in colZero)
  }

  // The first shape from s on that matches, ctz of the vector comparisons.
  function FirstShape(flags: set<nat>, colZero: set<nat>, i: nat, s: nat): (r: nat)
    requires i in flags && s < 8
    ensures r < 8 && Matches(flags, colZero, i, r)
    ensures forall t | s <= t < r :: !Matches(flags, colZero, i, t)
    decreases 8 - s
  {
    if Matches(flags, colZero, i, s) then s
    else
      Smallest(flags, colZero, i);
      FirstShape(flags, colZero, i, s + 1)
  }

  // A block alone always matches.
  lemma Smallest(flags: set<nat>, colZero: set<nat>, i: nat)
    requires i in flags
    ensures Matches(flags, colZero, i, 7)
  {
  }

  // ctz of a mask of 32 bits
  method Lowest(flags: set<nat>) returns (i: nat)
    requires flags != {} && forall f | f in flags :: f < 32
    ensures i in flags && forall f | f in flags :: i <= f
  {
    i := 0;
    while i !in flags
      invariant i <= 32 && forall f | f in flags :: i <= f
      decreases 32 - i
    {
      i := i + 1;
    }
  }

  // What is asked of each rectangle.
  ghost predicate Good(r: Cut, flags: set<nat>, colZero: set<nat>) {
    && r.shape < 8 && Mask(r.shape) <= Scope(r.block % 16)
    && Blocks(r) <= flags
    && (Blocks(r) <= colZero || Blocks(r) !! colZero)
    && forall b | b in Blocks(r) :: b / 16 == r.block / 16
  }

  ghost predicate Covers(cuts: seq<Cut>, flags: set<nat>) {
    && (forall j | 0 <= j < |cuts| :: cuts[j].shape < 8)
    && (forall f | f in flags :: exists j :: 0 <= j < |cuts| && f in Blocks(cuts[j]))
    && forall i, j | 0 <= i < j < |cuts| :: Blocks(cuts[i]) !! Blocks(cuts[j])
  }

  lemma MatchIsGood(flags: set<nat>, all: set<nat>, colZero: set<nat>, i: nat, shape: nat)
    requires shape < 8 && i < 32 && flags <= all && Matches(flags, colZero, i, shape)
    ensures Good(Cut(i, shape), all, colZero) && Blocks(Cut(i, shape)) <= flags
  {
    hide Mask, Scope, X, Y;
    forall b | b in Blocks(Cut(i, shape))
      ensures b / 16 == i / 16
    {
      var k :| k in Mask(shape) && b == i + k;
      Additive(i % 16, k);
    }
  }

  /**
   * For every set of flagged blocks and every set of colZero blocks, the loop ends with rectangles of
   * flagged blocks of one list and one colZero value each, which cover every flagged block exactly once.
   */
  method CutBlocks(flags: set<nat>, colZero: set<nat>) returns (cuts: seq<Cut>)
    requires forall f | f in flags :: f < 32
    ensures forall j | 0 <= j < |cuts| :: Good(cuts[j], flags, colZero)
    ensures Covers(cuts, flags)
  {
    hide Mask, Scope, Matches, Blocks, Covers, Good;
    cuts := [];
    NothingCovered();
    var rest := flags;
    assert flags - rest == {};
    while rest != {}
      invariant rest <= flags && forall j | 0 <= j < |cuts| :: cuts[j].shape < 8
      invariant forall j | 0 <= j < |cuts| :: Good(cuts[j], flags, colZero) && Blocks(cuts[j]) !! rest
      invariant Covers(cuts, flags - rest)
      decreases rest
    {
      var i := Lowest(rest);
      var shape := FirstShape(rest, colZero, i, 0);
      MatchIsGood(rest, flags, colZero, i, shape);
      ItsOwn(i, shape);
      var r := Cut(i, shape);
      CoversNext(cuts, flags - rest, r);
      assert flags - rest + Blocks(r) == flags - (rest - Blocks(r));
      cuts, rest := cuts + [r], rest - Blocks(r);
    }
    assert flags - rest == flags;
  }

  lemma NothingCovered()
    ensures Covers([], {})
  {
  }

  lemma ItsOwn(i: nat, shape: nat)
    requires shape < 8
    ensures i in Blocks(Cut(i, shape))
  {
    assert 0 in Mask(shape);
    assert i + 0 == i;
  }

  lemma CoversNext(cuts: seq<Cut>, flags: set<nat>, r: Cut)
    requires Covers(cuts, flags) && r.shape < 8 && forall j | 0 <= j < |cuts| :: Blocks(cuts[j]) !! Blocks(r)
    ensures Covers(cuts + [r], flags + Blocks(r))
  {
    hide Blocks, Mask;
    var next := cuts + [r];
    forall f | f in flags + Blocks(r)
      ensures exists j :: 0 <= j < |next| && f in Blocks(next[j])
    {
      if f in flags {
        var j :| 0 <= j < |cuts| && f in Blocks(cuts[j]);
        assert next[j] == cuts[j];
      } else {
        assert next[|cuts|] == r;
      }
    }
  }
}
