/**
 * Slices started before their end is known: where their deblocking may write, what is kept aside of the
 * slices before them, and why taking back and decoding again gives the picture of a slice whose end was known.
 */
module Speculation {
  import opened Arithmetic

  // Planes are 0 for luma, 1 and 2 for chroma, in macroblocks of 16x16 and 8 by the chroma height samples.
  datatype Pos = Pos(plane: nat, row: nat, col: nat)

  type Picture = Pos -> int

  /**
   * A slice that starts at macroblock first of a picture: its deblocking mode, its samples before deblocking,
   * and the deblocking of one macroblock.
   */
  datatype Slice = Slice(
    width: nat, chromaHeight: nat, first: nat, idc: nat, payload: Picture, filter: (Picture, nat) -> Picture)

  predicate Shape(s: Slice) {
    s.width > 0 && (s.chromaHeight == 8 || s.chromaHeight == 16) && s.idc <= 2
  }

  function Height(s: Slice, plane: nat): (h: nat)
    ensures Shape(s) ==> h >= 8
  {
    if plane == 0 then 16 else s.chromaHeight
  }

  function Width(plane: nat): nat {
    if plane == 0 then 16 else 8
  }

  predicate InPicture(s: Slice, p: Pos) {
    p.plane < 3 && p.col < s.width * Width(p.plane)
  }

  // The macroblock of a sample, in raster order.
  function MbOf(s: Slice, p: Pos): nat
    requires Shape(s)
  {
    p.row / Height(s, p.plane) * s.width + p.col / Width(p.plane)
  }

  /** Luma in macroblocks of 16x16, chroma of 8 columns and 8 or 16 rows. */
  lemma MbOfMeans(s: Slice, p: Pos)
    requires Shape(s) && InPicture(s, p)
    ensures p.plane == 0 ==> MbOf(s, p) == p.row / 16 * s.width + p.col / 16 && p.col < 16 * s.width
    ensures 1 <= p.plane <= 2 ==> MbOf(s, p) == p.row / s.chromaHeight * s.width + p.col / 8 && p.col < 8 * s.width
    ensures p.plane <= 2
  {
  }

  // --- where deblocking writes ---

  // Rows and columns next to an edge that its filter may change or store again.
  function Depth(plane: nat): nat {
    if plane == 0 then 4 else 2
  }

  // The left edge of the slice's first macroblock, and top edges under other slices, are filtered in mode 0 only.
  predicate EdgeFiltered(s: Slice, neighbor: int) {
    s.idc == 0 || (s.idc == 2 && neighbor >= s.first)
  }

  predicate LeftSide(s: Slice, a: nat, p: Pos)
    requires Shape(s)
  {
    var x, y := a % s.width, a / s.width;
    && x > 0 && EdgeFiltered(s, a - 1) && p.row / Height(s, p.plane) == y
    && x * Width(p.plane) - Depth(p.plane) <= p.col < x * Width(p.plane)
  }

  predicate TopSide(s: Slice, a: nat, p: Pos)
    requires Shape(s)
  {
    var x, y := a % s.width, a / s.width;
    && y > 0 && EdgeFiltered(s, a - s.width) && p.col / Width(p.plane) == x
    && y * Height(s, p.plane) - Depth(p.plane) <= p.row < y * Height(s, p.plane)
  }

  predicate Footprint(s: Slice, a: nat, p: Pos)
    requires Shape(s)
  {
    InPicture(s, p) && (MbOf(s, p) == a || LeftSide(s, a, p) || TopSide(s, a, p))
  }

  // --- what spec_rows keeps aside ---

  datatype Part = Part(plane: nat, line: int, lines: nat, start: nat, end: nat)

  function PartsOf(s: Slice, plane: nat): seq<Part>
    requires Shape(s)
  {
    var x, y := s.first % s.width, s.first / s.width;
    var above := if y == 0 then 0 else Depth(plane);
    [Part(plane, y * Height(s, plane) - above, above, x * Width(plane), s.width * Width(plane)),
     Part(plane, y * Height(s, plane), Height(s, plane), 0, x * Width(plane))]
  }

  // Above and before the first macroblock, for each plane.
  function Parts(s: Slice): (r: seq<Part>)
    requires Shape(s)
    ensures |r| == 6
  {
    PartsOf(s, 0) + PartsOf(s, 1) + PartsOf(s, 2)
  }

  predicate InPart(t: Part, p: Pos) {
    p.plane == t.plane && t.line <= p.row < t.line + t.lines && t.start <= p.col < t.end
  }

  ghost predicate Kept(s: Slice, p: Pos)
    requires Shape(s)
  {
    exists t | t in Parts(s) :: InPart(t, p)
  }

  // --- the geometry ---

  lemma Times(a: int, b: int, w: nat)
    ensures a <= b ==> a * w <= b * w
  {
  }

  // A macroblock of the slice below or right of one before the slice is in its first or second row.
  lemma FirstRows(w: nat, a: nat, f: nat)
    requires w > 0 && f <= a < f + w
    ensures (a / w == f / w && a % w >= f % w) || (a / w == f / w + 1 && a % w < f % w)
  {
    var x, y := a % w, a / w;
    var x0, y0 := f % w, f / w;
    assert a == y * w + x && f == y0 * w + x0;
    Times(y + 1, y0, w);
    Times(y0 + 2, y, w);
    assert (y + 1) * w == y * w + w && (y0 + 2) * w == y0 * w + 2 * w;
    assert y == y0 || y == y0 + 1;
  }

  // The macroblock whose samples are changed beyond an edge.
  lemma LeftMb(s: Slice, a: nat, p: Pos)
    requires Shape(s) && InPicture(s, p) && LeftSide(s, a, p)
    ensures MbOf(s, p) == a - 1
  {
    var x, y, w := a % s.width, a / s.width, Width(p.plane);
    assert (x - 1) * w == x * w - w;
    Digits(p.col, x - 1, p.col - (x - 1) * w, w);
  }

  lemma TopMb(s: Slice, a: nat, p: Pos)
    requires Shape(s) && InPicture(s, p) && TopSide(s, a, p)
    ensures MbOf(s, p) == a - s.width && p.row / Height(s, p.plane) == a / s.width - 1
  {
    hide Height;
    var x, y, h := a % s.width, a / s.width, Height(s, p.plane);
    assert h > 0 && a == y * s.width + x;
    assert (y - 1) * h == y * h - h;
    Digits(p.row, y - 1, p.row - (y - 1) * h, h);
    assert (y - 1) * s.width == y * s.width - s.width;
  }

  lemma KeptIn(s: Slice, p: Pos, k: nat)
    requires Shape(s) && k < 2 && p.plane < 3 && InPart(PartsOf(s, p.plane)[k], p)
    ensures Kept(s, p)
  {
    assert Parts(s)[2 * p.plane + k] == PartsOf(s, p.plane)[k];
  }

  lemma Column(n: nat, d: nat, x: nat)
    requires d > 0 && n / d >= x
    ensures n >= x * d
  {
    Times(x, n / d, d);
  }

  lemma ColumnBelow(n: nat, d: nat, x: nat)
    requires d > 0 && n / d < x
    ensures n < x * d
  {
    Times(n / d + 1, x, d);
    assert (n / d + 1) * d == n / d * d + d;
  }

  /**
   * For every picture width and first macroblock, what the deblocking of a macroblock of the slice writes
   * outside of the slice is in the six parts kept aside.
   */
  lemma WritesKept(s: Slice, a: nat, p: Pos)
    requires Shape(s) && a >= s.first && Footprint(s, a, p) && MbOf(s, p) < s.first
    ensures s.idc == 0 && Kept(s, p)
  {
    if LeftSide(s, a, p) {
      LeftMb(s, a, p);
      BeforeKept(s, p, a % s.width);
    } else {
      TopMb(s, a, p);
      FirstRows(s.width, a, s.first);
      if a / s.width == s.first / s.width {
        AboveKept(s, a, p);
      } else {
        ColumnBelow(p.col, Width(p.plane), s.first % s.width);
        BeforeKept(s, p, s.first % s.width);
      }
    }
  }

  lemma BeforeKept(s: Slice, p: Pos, x: nat)
    requires Shape(s) && InPicture(s, p) && x <= s.first % s.width
    requires p.row / Height(s, p.plane) == s.first / s.width && p.col < x * Width(p.plane)
    ensures Kept(s, p)
  {
    var h := Height(s, p.plane);
    Times(x, s.first % s.width, Width(p.plane));
    assert p.row == p.row / h * h + p.row % h;
    KeptIn(s, p, 1);
  }

  lemma AboveKept(s: Slice, a: nat, p: Pos)
    requires Shape(s) && InPicture(s, p) && TopSide(s, a, p) && a / s.width == s.first / s.width
        && a % s.width >= s.first % s.width
    ensures Kept(s, p)
  {
    Column(p.col, Width(p.plane), s.first % s.width);
    KeptIn(s, p, 0);
  }

  lemma ColumnLess(n: nat, d: nat, x: nat)
    requires d > 0 && n < x * d
    ensures n / d < x
  {
    Times(x, n / d, d);
  }

  lemma PartFound(s: Slice, p: Pos) returns (k: nat)
    requires Shape(s) && InPicture(s, p) && Kept(s, p)
    ensures k < 2 && InPart(PartsOf(s, p.plane)[k], p)
  {
    var t :| t in Parts(s) && InPart(t, p);
    var i :| 0 <= i < 6 && Parts(s)[i] == t;
    assert t == PartsOf(s, i / 2)[i % 2];
    assert t.plane == i / 2;
    k := i % 2;
  }

  /** All that is kept aside belongs to macroblocks before the slice. */
  lemma KeptBefore(s: Slice, p: Pos)
    requires Shape(s) && InPicture(s, p) && Kept(s, p)
    ensures MbOf(s, p) < s.first
  {
    hide Kept, PartsOf, Parts, MbOf;
    var k := PartFound(s, p);
    if k == 1 {
      BeforeIn(s, p);
    } else {
      AboveIn(s, p);
    }
  }

  lemma BeforeIn(s: Slice, p: Pos)
    requires Shape(s) && InPicture(s, p) && InPart(PartsOf(s, p.plane)[1], p)
    ensures MbOf(s, p) < s.first
  {
    var y, h := s.first / s.width, Height(s, p.plane);
    Digits(p.row, y, p.row - y * h, h);
    ColumnLess(p.col, Width(p.plane), s.first % s.width);
    assert s.first == y * s.width + s.first % s.width;
  }

  lemma AboveIn(s: Slice, p: Pos)
    requires Shape(s) && InPicture(s, p) && InPart(PartsOf(s, p.plane)[0], p)
    ensures MbOf(s, p) < s.first
  {
    hide Height;
    var y, h := s.first / s.width, Height(s, p.plane);
    assert y > 0 && (y - 1) * h == y * h - h;
    Digits(p.row, y - 1, p.row - (y - 1) * h, h);
    ColumnLess(p.col, Width(p.plane), s.width);
    assert (y - 1) * s.width == y * s.width - s.width;
    assert s.first == y * s.width + s.first % s.width;
  }

  // --- decoding ---

  // The deblocking of a macroblock changes its footprint only, from the samples up to the macroblock.
  ghost predicate Local(s: Slice)
    requires Shape(s)
  {
    && (forall P: Picture, a: nat, p: Pos :: Footprint(s, a, p) || s.filter(P, a)(p) == P(p))
    && forall P: Picture, Q: Picture, a: nat, p: Pos :: Footprint(s, a, p) && Agree(s, P, Q, a + 1) ==>
        s.filter(P, a)(p) == s.filter(Q, a)(p)
  }

  // Same samples in the macroblocks below one.
  ghost predicate Agree(s: Slice, P: Picture, Q: Picture, end: nat)
    requires Shape(s)
  {
    forall p: Pos | InPicture(s, p) && MbOf(s, p) < end :: P(p) == Q(p)
  }

  /** The samples of macroblocks first to end - 1 before deblocking. */
  function Painted(s: Slice, P: Picture, end: nat): Picture
    requires Shape(s)
  {
    p => if InPicture(s, p) && s.first <= MbOf(s, p) < end then s.payload(p) else P(p)
  }

  function Deblocked(s: Slice, P: Picture, end: nat): Picture
    requires Shape(s)
    decreases end
  {
    if end <= s.first || s.idc == 1 then P else s.filter(Deblocked(s, P, end - 1), end - 1)
  }

  /** Macroblocks first to end - 1 decoded and deblocked. */
  function Decoded(s: Slice, P: Picture, end: nat): Picture
    requires Shape(s)
  {
    Deblocked(s, Painted(s, P, end), end)
  }

  /**
   * What decoding a slice means: the pictures S lead from all its macroblocks decoded, up to end, to those before d
   * deblocked one after the other, in raster order. Only a slice of mode 1 is not deblocked.
   */
  ghost predicate OneByOne(s: Slice, P: Picture, S: seq<Picture>, end: nat, d: nat)
    requires Shape(s)
  {
    && s.first <= d <= end && |S| == d - s.first + 1
    && (forall p: Pos :: S[0](p) == if InPicture(s, p) && s.first <= MbOf(s, p) < end then s.payload(p) else P(p))
    && forall k: nat | k < d - s.first :: S[k + 1] == if s.idc == 1 then S[k] else s.filter(S[k], s.first + k)
  }

  /** Decoded and deblocked as a whole, a slice is deblocked exactly so. */
  lemma {:induction false} DecodedOneByOne(s: Slice, P: Picture, end: nat, d: nat) returns (S: seq<Picture>)
    requires Shape(s) && s.first <= d <= end
    ensures OneByOne(s, P, S, end, d) && S[d - s.first] == Deblocked(s, Painted(s, P, end), d)
    decreases d
  {
    if d == s.first {
      S := [Painted(s, P, end)];
    } else {
      var T := DecodedOneByOne(s, P, end, d - 1);
      S := T + [if s.idc == 1 then T[d - 1 - s.first] else s.filter(T[d - 1 - s.first], d - 1)];
      FirstDeblocked(s, Painted(s, P, end), d);
    }
  }

  lemma {:induction false} FirstDeblocked(s: Slice, P: Picture, d: nat)
    requires Shape(s)
    ensures s.idc == 1 || d <= s.first ==> Deblocked(s, P, d) == P
  {
  }

  /** What deblocking a macroblock may change: three samples of luma and one of chroma beyond its edges. */
  lemma BeyondEdges(s: Slice, a: nat, p: Pos, i: nat)
    requires Shape(s) && p.plane < 3 && 1 <= i <= (if p.plane == 0 then 3 else 1)
    requires s.idc == 0 || (s.idc == 2 && a >= s.first + s.width)
    requires InPicture(s, p)
    ensures (a / s.width > 0 && p.col / Width(p.plane) == a % s.width
             && p.row + i == a / s.width * Height(s, p.plane)) ==> Footprint(s, a, p)
    ensures (a % s.width > 0 && p.row / Height(s, p.plane) == a / s.width && (s.idc == 0 || a > s.first)
             && p.col + i == a % s.width * Width(p.plane)) ==> Footprint(s, a, p)
  {
  }

  lemma FootprintBelow(s: Slice, a: nat, p: Pos)
    requires Shape(s) && Footprint(s, a, p)
    ensures MbOf(s, p) <= a
  {
    if LeftSide(s, a, p) {
      LeftMb(s, a, p);
    } else if TopSide(s, a, p) {
      TopMb(s, a, p);
    }
  }

  /** Deblocking changes no macroblock after the last deblocked, and before the slice only what is kept aside. */
  lemma {:induction false} DeblockedAbove(s: Slice, P: Picture, end: nat, p: Pos)
    requires Shape(s) && Local(s) && InPicture(s, p)
    requires (end >= s.first && MbOf(s, p) >= end) || (MbOf(s, p) < s.first && !(s.idc == 0 && Kept(s, p)))
    ensures Deblocked(s, P, end)(p) == P(p)
    decreases end
  {
    hide Footprint, MbOf, Kept;
    if end > s.first && s.idc != 1 {
      if Footprint(s, end - 1, p) {
        FootprintBelow(s, end - 1, p);
        WritesKept(s, end - 1, p);
      } else {
        Unfiltered(s, Deblocked(s, P, end - 1), end - 1, p);
        DeblockedAbove(s, P, end - 1, p);
      }
    }
  }

  lemma Unfiltered(s: Slice, P: Picture, a: nat, p: Pos)
    requires Shape(s) && Local(s) && !Footprint(s, a, p)
    ensures s.filter(P, a)(p) == P(p)
  {
  }

  lemma Filtered(s: Slice, P: Picture, Q: Picture, a: nat, p: Pos)
    requires Shape(s) && Local(s) && Agree(s, P, Q, a + 1) && InPicture(s, p) && P(p) == Q(p)
    ensures s.filter(P, a)(p) == s.filter(Q, a)(p)
  {
    if !Footprint(s, a, p) {
      Unfiltered(s, P, a, p);
      Unfiltered(s, Q, a, p);
    }
  }

  lemma {:induction false} DeblockedAgree(s: Slice, P: Picture, Q: Picture, end: nat)
    requires Shape(s) && Local(s) && Agree(s, P, Q, end)
    ensures Agree(s, Deblocked(s, P, end), Deblocked(s, Q, end), end)
    decreases end
  {
    hide Footprint, MbOf, Local;
    if end > s.first && s.idc != 1 {
      var P', Q' := Deblocked(s, P, end - 1), Deblocked(s, Q, end - 1);
      DeblockedAgree(s, P, Q, end - 1);
      forall p: Pos | InPicture(s, p) && MbOf(s, p) < end
        ensures P'(p) == Q'(p)
      {
        if MbOf(s, p) >= end - 1 {
          DeblockedAbove(s, P, end - 1, p);
          DeblockedAbove(s, Q, end - 1, p);
        }
      }
      forall p: Pos | InPicture(s, p) && MbOf(s, p) < end
        ensures s.filter(P', end - 1)(p) == s.filter(Q', end - 1)(p)
      {
        Filtered(s, P', Q', end - 1, p);
      }
    }
  }

  // --- decoding one macroblock at a time ---

  ghost predicate SameSamples(s: Slice, P: Picture, Q: Picture) {
    forall p: Pos | InPicture(s, p) :: P(p) == Q(p)
  }

  // Macroblock a decoded, and deblocked.
  function PaintedOne(s: Slice, P: Picture, a: nat): Picture
    requires Shape(s)
  {
    p => if InPicture(s, p) && MbOf(s, p) == a then s.payload(p) else P(p)
  }

  function DeblockedOne(s: Slice, P: Picture, a: nat): Picture {
    if s.idc == 1 then P else s.filter(P, a)
  }

  lemma DeblockedSame(s: Slice, P: Picture, Q: Picture, d: nat)
    requires Shape(s) && Local(s) && s.first <= d && SameSamples(s, P, Q)
    ensures SameSamples(s, Deblocked(s, P, d), Deblocked(s, Q, d))
  {
    hide Footprint, MbOf, Local;
    DeblockedAgree(s, P, Q, d);
    forall p: Pos | InPicture(s, p)
      ensures Deblocked(s, P, d)(p) == Deblocked(s, Q, d)(p)
    {
      if MbOf(s, p) >= d {
        DeblockedAbove(s, P, d, p);
        DeblockedAbove(s, Q, d, p);
      }
    }
  }

  /** Decoding a macroblock commutes with deblocking the ones before it. */
  lemma PaintCommutes(s: Slice, P: Picture, d: nat, a: nat)
    requires Shape(s) && Local(s) && s.first <= d <= a
    ensures SameSamples(s, PaintedOne(s, Deblocked(s, P, d), a), Deblocked(s, PaintedOne(s, P, a), d))
  {
    hide Footprint, MbOf, Local;
    var Q := PaintedOne(s, P, a);
    DeblockedAgree(s, P, Q, d);
    forall p: Pos | InPicture(s, p)
      ensures PaintedOne(s, Deblocked(s, P, d), a)(p) == Deblocked(s, Q, d)(p)
    {
      if MbOf(s, p) >= d {
        DeblockedAbove(s, P, d, p);
        DeblockedAbove(s, Q, d, p);
      }
    }
  }

  lemma PaintStep(s: Slice, P: Picture, S: Picture, d: nat, a: nat)
    requires Shape(s) && Local(s) && s.first <= d <= a && SameSamples(s, S, Deblocked(s, Painted(s, P, a), d))
    ensures SameSamples(s, PaintedOne(s, S, a), Deblocked(s, Painted(s, P, a + 1), d))
  {
    hide Footprint, MbOf, Local, Deblocked;
    var A := Painted(s, P, a);
    PaintCommutes(s, A, d, a);
    DeblockedSame(s, PaintedOne(s, A, a), Painted(s, P, a + 1), d);
    assert SameSamples(s, PaintedOne(s, S, a), PaintedOne(s, Deblocked(s, A, d), a));
  }

  lemma DeblockStep(s: Slice, A: Picture, S: Picture, d: nat)
    requires Shape(s) && Local(s) && s.first <= d && SameSamples(s, S, Deblocked(s, A, d))
    ensures SameSamples(s, DeblockedOne(s, S, d), Deblocked(s, A, d + 1))
  {
    hide Footprint, MbOf, Local;
    forall p: Pos | InPicture(s, p)
      ensures DeblockedOne(s, S, d)(p) == Deblocked(s, A, d + 1)(p)
    {
      if s.idc != 1 {
        Filtered(s, S, Deblocked(s, A, d), d, p);
      }
    }
  }

  // The frontier published at the last row that ended before macroblock end, one row of deblocking behind.
  function Published(s: Slice, was: nat, end: nat): nat
    requires Shape(s)
  {
    var m := end / s.width * s.width;
    if m <= s.first then was else if s.idc == 1 then m else Behind(s, m)
  }

  // The macroblock to deblock next when one is to be decoded next.
  function Behind(s: Slice, a: nat): (d: nat)
    ensures a >= s.first ==> s.first <= d <= a
  {
    if a >= s.first + s.width then a - s.width else s.first
  }

  /** What is published has been deblocked, less than a row before it, and never more than was decoded. */
  lemma PublishedBehind(s: Slice, was: nat, end: nat)
    requires Shape(s) && s.first <= end && was == s.first
    ensures var f := Published(s, was, end);
            && s.first <= f <= end && (s.idc != 1 ==> f <= Behind(s, end) < f + s.width)
            && (s.idc == 1 ==> end < f + s.width + s.first % s.width)
  {
    var w, m := s.width, end / s.width * s.width;
    assert end == m + end % w;
    assert s.first == s.first / w * w + s.first % w;
    if m <= s.first {
      Times(end / w, s.first / w, w);
    }
  }

  lemma RowEnd(s: Slice, was: nat, a: nat)
    requires Shape(s) && s.first <= a
    ensures Published(s, was, s.first) == was
    ensures Published(s, was, a + 1) ==
            if (a + 1) % s.width != 0 then Published(s, was, a) else if s.idc == 1 then a + 1 else Behind(s, a + 1)
  {
    var w := s.width;
    var y, x := a / w, a % w;
    assert a == y * w + x;
    if x + 1 == w {
      Digits(a + 1, y + 1, 0, w);
    } else {
      Digits(a + 1, y, x + 1, w);
    }
    assert s.first / w * w <= s.first;
  }

  // --- taking back ---

  // The samples kept aside from an earlier picture are back, all others are as a picture left them.
  ghost predicate PutBack(s: Slice, R: Picture, left: Picture, kept: Picture)
    requires Shape(s)
  {
    forall p: Pos | InPicture(s, p) :: R(p) == if s.idc == 0 && Kept(s, p) then kept(p) else left(p)
  }

  /**
   * A slice decoded past its bound and deblocked up to any macroblock, taken back and decoded again with it: all
   * samples but those of the macroblocks past the bound, which are no longer claimed, are as if the bound had
   * been known.
   */
  lemma TakenBack(s: Slice, P: Picture, Q: Picture, R: Picture, d: nat, reached: nat, bound: nat, p: Pos)
    requires Shape(s) && Local(s) && s.first <= bound <= reached && InPicture(s, p) && !(bound <= MbOf(s, p) < reached)
    requires s.first <= d <= reached && SameSamples(s, Q, Deblocked(s, Painted(s, P, reached), d))
    requires PutBack(s, R, Q, P)
    ensures Decoded(s, R, bound)(p) == Decoded(s, P, bound)(p)
  {
    hide Footprint, MbOf, Local, Kept;
    forall q: Pos | InPicture(s, q) && MbOf(s, q) < s.first
      ensures R(q) == P(q)
    {
      if !(s.idc == 0 && Kept(s, q)) {
        DeblockedAbove(s, Painted(s, P, reached), d, q);
      }
    }
    if MbOf(s, p) < bound {
      DeblockedAgree(s, Painted(s, R, bound), Painted(s, P, bound), bound);
    } else {
      DeblockedAbove(s, Painted(s, R, bound), bound, p);
      DeblockedAbove(s, Painted(s, P, bound), bound, p);
      DeblockedAbove(s, Painted(s, P, reached), d, p);
      if Kept(s, p) {
        KeptBefore(s, p);
      }
    }
  }

  // Nothing is put back of a slice that has not deblocked.
  lemma PaintedBack(s: Slice, P: Picture, Q: Picture, reached: nat)
    requires Shape(s) && s.first <= reached && SameSamples(s, Q, Painted(s, P, reached))
    ensures SameSamples(s, Q, Deblocked(s, Painted(s, P, reached), s.first)) && PutBack(s, Q, Q, P)
  {
    hide MbOf, Kept;
    forall p: Pos | InPicture(s, p) && Kept(s, p)
      ensures Q(p) == P(p)
    {
      KeptBefore(s, p);
    }
  }

  // --- the buffer of the parts kept aside ---

  predicate PartShape(t: Part) {
    t.line >= 0 && t.start <= t.end
  }

  lemma PartsShape(s: Slice)
    requires Shape(s)
    ensures forall t | t in Parts(s) :: PartShape(t)
  {
    forall plane: nat | plane < 3
      ensures PartShape(PartsOf(s, plane)[0]) && PartShape(PartsOf(s, plane)[1])
    {
      var y := s.first / s.width;
      Times(1, y, Height(s, plane));
      Times(s.first % s.width, s.width, Width(plane));
    }
    assert forall t | t in Parts(s) :: t in PartsOf(s, 0) || t in PartsOf(s, 1) || t in PartsOf(s, 2);
  }

  function RowOf(P: Picture, t: Part, l: nat): (r: seq<int>)
    requires PartShape(t)
    ensures |r| == t.end - t.start
  {
    seq(t.end - t.start, j requires 0 <= j < t.end - t.start => P(Pos(t.plane, t.line + l, t.start + j)))
  }

  function PartRows(P: Picture, t: Part, l: nat): seq<int>
    requires PartShape(t)
  {
    if l == 0 then [] else PartRows(P, t, l - 1) + RowOf(P, t, l - 1)
  }

  // All rows of the first i parts.
  function AllRows(P: Picture, parts: seq<Part>, i: nat): seq<int>
    requires i <= |parts| && forall t | t in parts :: PartShape(t)
  {
    if i == 0 then [] else AllRows(P, parts, i - 1) + PartRows(P, parts[i - 1], parts[i - 1].lines)
  }

  lemma {:induction false} PartPrefix(P: Picture, t: Part, l: nat, m: nat)
    requires PartShape(t) && l <= m
    ensures PartRows(P, t, l) <= PartRows(P, t, m)
  {
    if l < m {
      PartPrefix(P, t, l, m - 1);
    }
  }

  lemma {:induction false} AllPrefix(P: Picture, parts: seq<Part>, i: nat, m: nat)
    requires i <= m <= |parts| && forall t | t in parts :: PartShape(t)
    ensures AllRows(P, parts, i) <= AllRows(P, parts, m)
  {
    hide PartRows, PartShape;
    if i < m {
      AllPrefix(P, parts, i, m - 1);
    }
  }

  /** Where a row is in the buffer. */
  lemma RowAt(P: Picture, parts: seq<Part>, i: nat, l: nat)
    requires i < |parts| && (forall t | t in parts :: PartShape(t)) && l < parts[i].lines
    ensures var k := |AllRows(P, parts, i)| + |PartRows(P, parts[i], l)|;
            var all := AllRows(P, parts, |parts|);
            var n := parts[i].end - parts[i].start;
            k + n <= |all| && all[k..k + n] == RowOf(P, parts[i], l)
  {
    hide RowOf, AllRows, PartRows;
    var a, b, c := AllRows(P, parts, i), PartRows(P, parts[i], l), RowOf(P, parts[i], l);
    PartPrefix(P, parts[i], l + 1, parts[i].lines);
    AllPrefix(P, parts, i + 1, |parts|);
    NextRow(P, parts[i], l);
    NextPart(P, parts, i);
    Middle(a, b, c, PartRows(P, parts[i], parts[i].lines), AllRows(P, parts, |parts|));
  }

  lemma NoRows(P: Picture, parts: seq<Part>)
    requires forall t | t in parts :: PartShape(t)
    ensures AllRows(P, parts, 0) == [] && forall t | t in parts :: PartRows(P, t, 0) == []
  {
  }

  lemma RowSamples(P: Picture, t: Part, l: nat)
    requires PartShape(t)
    ensures forall p: Pos | p.plane == t.plane && p.row == t.line + l && t.start <= p.col < t.end ::
              RowOf(P, t, l)[p.col - t.start] == P(p)
  {
  }

  lemma NextRow(P: Picture, t: Part, l: nat)
    requires PartShape(t)
    ensures PartRows(P, t, l + 1) == PartRows(P, t, l) + RowOf(P, t, l)
  {
  }

  lemma NextPart(P: Picture, parts: seq<Part>, i: nat)
    requires i < |parts| && forall t | t in parts :: PartShape(t)
    ensures AllRows(P, parts, i + 1) == AllRows(P, parts, i) + PartRows(P, parts[i], parts[i].lines)
  {
  }

  lemma Middle(a: seq<int>, b: seq<int>, c: seq<int>, part: seq<int>, all: seq<int>)
    requires b + c <= part && a + part <= all
    ensures |a| + |b| + |c| <= |all| && all[|a| + |b|..|a| + |b| + |c|] == c
  {
    assert c == part[|b|..|b| + |c|];
    assert part == all[|a|..|a| + |part|];
  }

  // The samples of the parts before one, and of its first rows.
  ghost predicate Copied(parts: seq<Part>, i: nat, l: nat, p: Pos)
    requires i <= |parts|
  {
    (exists k | 0 <= k < i :: InPart(parts[k], p)) || (i < |parts| && InPart(parts[i].(lines := l), p))
  }

  lemma CopiedRow(parts: seq<Part>, i: nat, l: nat, p: Pos)
    requires i < |parts|
    ensures Copied(parts, i, l + 1, p) <==>
            Copied(parts, i, l, p) || (p.plane == parts[i].plane && p.row == parts[i].line + l
                && parts[i].start <= p.col < parts[i].end)
  {
  }

  lemma CopiedPart(parts: seq<Part>, i: nat, p: Pos)
    requires i < |parts|
    ensures Copied(parts, i + 1, 0, p) <==> Copied(parts, i, parts[i].lines, p)
  {
    assert parts[i].(lines := parts[i].lines) == parts[i];
  }

  lemma CopiedAll(s: Slice, p: Pos)
    requires Shape(s)
    ensures !Copied(Parts(s), 0, 0, p) && (Copied(Parts(s), 6, 0, p) <==> Kept(s, p))
  {
    hide Parts;
    if t :| t in Parts(s) && InPart(t, p) {
      var k :| 0 <= k < 6 && Parts(s)[k] == t;
    }
  }

  // Macroblocks start to end - 1.
  function Range(start: nat, end: nat): (r: set<nat>)
    ensures forall a: nat :: a in r <==> start <= a < end
    decreases end
  {
    if end <= start then {} else Range(start, end - 1) + {end - 1}
  }

  lemma RangePart(start: nat, middle: nat, end: nat)
    requires middle <= end
    ensures Range(start, middle) <= Range(start, end)
  {
  }

  /** The worker of a slice: the picture, the macroblocks claimed, the frontier published, and the rows kept aside. */
  class SliceWorker {
    const slice: Slice
    var samples: Picture
    var claims: set<nat>
    var frontier: nat
    var kept: seq<int>

    constructor (slice: Slice, samples: Picture, claims: set<nat>, frontier: nat)
      ensures this.slice == slice && this.samples == samples && this.claims == claims && this.frontier == frontier
    {
      this.slice, this.samples, this.claims, this.frontier, kept := slice, samples, claims, frontier, [];
    }

    /** spec_rows, keeping the samples aside. */
    method KeepRows()
      requires Shape(slice)
      modifies this`kept
      ensures (forall t | t in Parts(slice) :: PartShape(t)) && kept == AllRows(samples, Parts(slice), 6)
    {
      hide Shape, Parts, RowOf, AllRows, PartRows;
      PartsShape(slice);
      var parts := Parts(slice);
      kept := [];
      NoRows(samples, parts);
      for i := 0 to 6
        invariant kept == AllRows(samples, parts, i)
      {
        for l := 0 to parts[i].lines
          invariant kept == AllRows(samples, parts, i) + PartRows(samples, parts[i], l)
        {
          NextRow(samples, parts[i], l);
          kept := kept + RowOf(samples, parts[i], l);
        }
        NextPart(samples, parts, i);
      }
    }

    // memcpy of one row into the picture.
    method WriteRow(t: Part, l: nat, row: seq<int>)
      requires PartShape(t) && |row| == t.end - t.start
      modifies this`samples
      ensures forall p: Pos :: samples(p) == if p.plane == t.plane && p.row == t.line + l && t.start <= p.col < t.end
                                             then row[p.col - t.start] else old(samples)(p)
    {
      var was := samples;
      samples := (p: Pos) => if p.plane == t.plane && p.row == t.line + l && t.start <= p.col < t.end
          && p.col - t.start < |row|
                             then row[p.col - t.start] else was(p);
    }

    /** spec_rows, putting the samples back. */
    method PutRowsBack(ghost P: Picture)
      requires Shape(slice) && (forall t | t in Parts(slice) :: PartShape(t)) && kept == AllRows(P, Parts(slice), 6)
      modifies this`samples
      ensures forall p: Pos :: samples(p) == if Kept(slice, p) then P(p) else old(samples)(p)
    {
      hide Shape, Kept, Parts, RowOf, AllRows, PartRows, Copied;
      var parts := Parts(slice);
      var k := 0;
      NoRows(P, parts);
      forall p: Pos {
        CopiedAll(slice, p);
      }
      for i := 0 to 6
        invariant k == |AllRows(P, parts, i)|
        invariant forall p: Pos :: samples(p) == if Copied(parts, i, 0, p) then P(p) else old(samples)(p)
      {
        for l := 0 to parts[i].lines
          invariant k == |AllRows(P, parts, i)| + |PartRows(P, parts[i], l)|
          invariant forall p: Pos :: samples(p) == if Copied(parts, i, l, p) then P(p) else old(samples)(p)
        {
          var n := parts[i].end - parts[i].start;
          RowAt(P, parts, i, l);
          WriteRow(parts[i], l, kept[k..k + n]);
          k := k + n;
          RowSamples(P, parts[i], l);
          NextRow(P, parts[i], l);
          forall p: Pos {
            CopiedRow(parts, i, l, p);
          }
        }
        NextPart(P, parts, i);
        forall p: Pos {
          CopiedPart(parts, i, p);
        }
      }
    }

    // A macroblock is decoded, and the one above it deblocked if it is next.
    method Macroblock(a: nat, d: nat, deblocks: bool, ghost P: Picture) returns (next: nat)
      requires Shape(slice) && Local(slice) && slice.first <= d <= a
      requires SameSamples(slice, samples, Deblocked(slice, Painted(slice, P, a), d))
      modifies this`samples
      ensures next == if deblocks && a == d + slice.width then d + 1 else d
      ensures SameSamples(slice, samples, Deblocked(slice, Painted(slice, P, a + 1), next))
    {
      hide Shape, Local, Deblocked, SameSamples, Painted, PaintedOne, DeblockedOne;
      next := d;
      PaintStep(slice, P, samples, next, a);
      samples := PaintedOne(slice, samples, a);
      if deblocks && a == next + slice.width {
        DeblockStep(slice, Painted(slice, P, a + 1), samples, next);
        samples := DeblockedOne(slice, samples, next);
        next := next + 1;
      }
    }

    /**
     * The loop over macroblocks. Each is claimed and decoded, and if the slice deblocks on the way, the one above
     * it is deblocked. At the end of a row a slice in its turn publishes how far that got.
     */
    method DecodeTo(end: nat, deblocks: bool, inTurn: bool) returns (next: nat)
      requires Shape(slice) && Local(slice) && slice.first <= end && (inTurn ==> deblocks)
      modifies this`samples, this`claims, this`frontier
      ensures claims == old(claims) + Range(slice.first, end)
      ensures next == (if deblocks then Behind(slice, end) else slice.first)
      ensures SameSamples(slice, samples, Deblocked(slice, Painted(slice, old(samples), end), next))
      ensures exists S: seq<Picture> ::
                OneByOne(slice, old(samples), S, end, next) && SameSamples(slice, samples, S[next - slice.first])
      ensures frontier == if inTurn then Published(slice, old(frontier), end) else old(frontier)
    {
      assert slice.width > 0;
      hide Shape, Local, InPicture, MbOf, Deblocked, Published, SameSamples, Painted;
      ghost var P, was := samples, frontier;
      next := slice.first;
      NothingDecoded(slice, P);
      RowEnd(slice, was, slice.first);
      for a := slice.first to end
        invariant claims == old(claims) + Range(slice.first, a)
        invariant next == if deblocks then Behind(slice, a) else slice.first
        invariant SameSamples(slice, samples, Deblocked(slice, Painted(slice, P, a), next))
        invariant frontier == if inTurn then Published(slice, was, a) else was
      {
        claims := claims + {a};
        next := Macroblock(a, next, deblocks, P);
        RowEnd(slice, was, a);
        if inTurn && (a + 1) % slice.width == 0 {
          frontier := if slice.idc != 1 then next else a + 1;
        }
      }
      ghost var S := DecodedOneByOne(slice, P, end, next);
    }

    /** deblock_range: the macroblocks not deblocked on the way. */
    method DeblockRange(from: nat, end: nat, ghost A: Picture)
      requires Shape(slice) && Local(slice) && slice.first <= from <= end
      requires SameSamples(slice, samples, Deblocked(slice, A, from))
      modifies this`samples
      ensures SameSamples(slice, samples, Deblocked(slice, A, end))
    {
      hide Shape, Local, InPicture, Deblocked, SameSamples;
      for a := from to end
        invariant SameSamples(slice, samples, Deblocked(slice, A, a))
      {
        DeblockStep(slice, A, samples, a);
        samples := DeblockedOne(slice, samples, a);
      }
    }

    // The claims of a slice that went past its bound are undone.
    method Unclaim(end: nat)
      modifies this`claims
      ensures claims == old(claims) - Range(slice.first, end)
    {
      for a := slice.first to if end < slice.first then slice.first else end
        invariant claims == old(claims) - Range(slice.first, a)
      {
        claims := claims - {a};
      }
    }

    // Decoding with a bound that is known, deblocking what is left and publishing all.
    method DecodeWhole(end: nat, deblocks: bool, inTurn: bool)
      requires Shape(slice) && Local(slice) && slice.first <= end && (inTurn ==> deblocks)
      modifies this`samples, this`claims, this`frontier
      ensures claims == old(claims) + Range(slice.first, end) && frontier == end
      ensures SameSamples(slice, samples, Decoded(slice, old(samples), end))
    {
      hide Shape, Local, InPicture, Deblocked, SameSamples;
      ghost var P := samples;
      var next := DecodeTo(end, deblocks, inTurn);
      DeblockRange(next, end, Painted(slice, P, end));
      frontier := end;
    }

    // An attempt that went past the bound: it ends with what the slice held when it started taken back.
    method Attempt(reached: nat, deblocks: bool, inTurn: bool, saves: bool, ghost end: nat)
      requires Shape(slice) && Local(slice) && slice.first <= end <= reached && (inTurn ==> deblocks)
      requires (saves <==> inTurn && slice.idc == 0) && (deblocks <==> inTurn || slice.idc == 2)
      requires saves ==> (forall t | t in Parts(slice) :: PartShape(t)) && kept == AllRows(samples, Parts(slice), 6)
      requires claims !! Range(slice.first, reached)
      modifies this`samples, this`claims, this`frontier
      ensures claims == old(claims) && frontier == if inTurn then slice.first else old(frontier)
      ensures forall p: Pos | InPicture(slice, p) && !(end <= MbOf(slice, p) < reached) ::
                Decoded(slice, samples, end)(p) == Decoded(slice, old(samples), end)(p)
    {
      hide Shape, Local, InPicture, MbOf, Kept, Decoded, Deblocked, SameSamples, Published, Parts;
      ghost var P := samples;
      var next := DecodeTo(reached, deblocks, inTurn);
      ghost var Q := samples;
      if inTurn {
        frontier := slice.first;
      }
      if saves {
        PutRowsBack(P);
      }
      Unclaim(reached);
      ghost var R := samples;
      if saves || deblocks {
        assert PutBack(slice, R, Q, P);
      } else {
        FirstDeblocked(slice, Painted(slice, P, reached), slice.first);
        PaintedBack(slice, P, Q, reached);
      }
      forall p: Pos | InPicture(slice, p) && !(end <= MbOf(slice, p) < reached)
        ensures Decoded(slice, R, end)(p) == Decoded(slice, P, end)(p)
      {
        TakenBack(slice, P, Q, R, next, reached, end, p);
      }
    }

    /**
     * worker_loop on a slice started before its bound was known. It would stop at macroblock stop, where its
     * data ends or another slice claimed one, and had reached one when it learned the bound. Its claims, the
     * frontier, and all samples but those it no longer claims are as if the bound had been known.
     */
    method Run(stop: nat, bound: nat, reached: nat, afterSpec: bool)
      requires Shape(slice) && Local(slice) && slice.first <= reached <= stop && slice.first <= bound
      requires claims !! Range(slice.first, stop)
      modifies this
      ensures var end := if bound < stop then bound else stop;
              && claims == old(claims) + Range(slice.first, end) && frontier == end
              && exists S: seq<Picture> :: OneByOne(slice, old(samples), S, end, end)
                   && forall p: Pos | InPicture(slice, p) && !(end <= MbOf(slice, p) < reached) ::
                        samples(p) == S[end - slice.first](p)
    {
      hide Shape, Local, MbOf, Kept, Range, Painted, Deblocked, OneByOne;
      ghost var P := samples;
      var end := if bound < stop then bound else stop;
      var inTurn := frontier == slice.first && !afterSpec;
      var deblocks := inTurn || slice.idc == 2;
      var saves := inTurn && slice.idc == 0;
      if saves {
        KeepRows();
      }
      if reached > bound {
        RangePart(slice.first, reached, stop);
        Attempt(reached, deblocks, inTurn, saves, end);
      }
      DecodeWhole(end, deblocks, inTurn);
      ghost var S := DecodedOneByOne(slice, P, end, end);
      assert S[end - slice.first] == Decoded(slice, P, end);
    }
  }

  lemma NothingDecoded(s: Slice, P: Picture)
    requires Shape(s)
    ensures SameSamples(s, P, Deblocked(s, Painted(s, P, s.first), s.first))
  {
  }
}
