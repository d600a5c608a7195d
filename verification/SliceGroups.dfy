/**
 * Slice group maps (clause 8.2.2 of H.264): the group of every macroblock of a picture of w by h.
 */
module SliceGroups {
  import opened Arithmetic
  import opened Sets

  // --- row-major units ---

  lemma UnitInside(y: int, x: int, w: int, h: int)
    requires 0 <= x < w && 0 <= y < h
    ensures 0 <= y * w + x < w * h
  {
    MulLess(y, h, w);
    assert y * w >= 0;
    assert h * w == w * h;
  }

  lemma RowInside(u: int, w: int, h: int)
    requires w > 0 && 0 <= u < w * h
    ensures 0 <= u / w < h && u == u / w * w + u % w
  {
    if u / w >= h {
      if u / w > h {
        MulLess(h, u / w, w);
      }
    }
  }

  // The unit of a position, and the position of a unit.
  function Unit(y: nat, x: nat, w: nat): nat {
    y * w + x
  }

  function Row(u: nat, w: nat): nat
    requires w > 0
  {
    u / w
  }

  function Col(u: nat, w: nat): (x: nat)
    requires w > 0
    ensures x < w
  {
    u % w
  }

  lemma UnitAt(y: nat, x: nat, w: nat, h: nat)
    requires x < w && y < h
    ensures 0 <= Unit(y, x, w) < w * h && Row(Unit(y, x, w), w) == y && Col(Unit(y, x, w), w) == x
  {
    UnitInside(y, x, w, h);
    Digits(Unit(y, x, w), y, x, w);
  }

  lemma UnitOf(u: nat, w: nat, h: nat)
    requires w > 0 && u < w * h
    ensures Row(u, w) < h && u == Unit(Row(u, w), Col(u, w), w)
  {
    RowInside(u, w, h);
  }

  // --- type 0, interleaved (8.2.2.1) ---

  // Units of the first g runs.
  function Runs(lengths: seq<nat>, g: nat): nat
    requires g <= |lengths|
  {
    if g == 0 then 0 else Runs(lengths, g - 1) + lengths[g - 1]
  }

  lemma {:induction false} RunsMonotone(lengths: seq<nat>, a: nat, b: nat)
    requires a <= b <= |lengths|
    ensures Runs(lengths, a) <= Runs(lengths, b)
  {
    if a < b {
      RunsMonotone(lengths, a, b - 1);
    }
  }

  // Unit i falls in run g of its round.
  ghost predicate InRun(lengths: seq<nat>, i: nat, g: nat) {
    g < |lengths| && Runs(lengths, |lengths|) > 0
    && Runs(lengths, g) <= i % Runs(lengths, |lengths|) < Runs(lengths, g + 1)
  }

  /** Runs of the groups follow each other in rounds, up to the last unit. */
  method Interleaved(units: array<int>, size: nat, lengths: seq<nat>)
    requires size <= units.Length && 0 < |lengths| && forall g | 0 <= g < |lengths| :: lengths[g] >= 1
    requires size > 0
    modifies units
    ensures forall i | 0 <= i < size :: 0 <= units[i] < |lengths| && InRun(lengths, i, units[i])
    ensures forall i | size <= i < units.Length :: units[i] == old(units[i])
  {
    ghost var n, total, round := |lengths|, Runs(lengths, |lengths|), 0;
    RunsMonotone(lengths, 1, |lengths|);
    var i := 0;
    while i < size
      invariant i == round * total || i >= size
      invariant forall j | 0 <= j < i && j < size :: 0 <= units[j] < |lengths| && InRun(lengths, j, units[j])
      invariant forall j | size <= j < units.Length :: units[j] == old(units[j])
      decreases size - i
    {
      var iGroup := 0;
      ghost var start := i;
      while iGroup < |lengths| && i < size
        invariant iGroup <= |lengths| && i == start + Runs(lengths, iGroup)
        invariant forall j | 0 <= j < i && j < size :: 0 <= units[j] < |lengths| && InRun(lengths, j, units[j])
        invariant forall j | size <= j < units.Length :: units[j] == old(units[j])
      {
        var j := 0;
        while j < lengths[iGroup] && i + j < size
          invariant 0 <= j <= lengths[iGroup]
          invariant forall k | 0 <= k < i + j && k < size :: 0 <= units[k] < |lengths| && InRun(lengths, k, units[k])
          invariant forall k | size <= k < units.Length :: units[k] == old(units[k])
        {
          RunsMonotone(lengths, iGroup + 1, |lengths|);
          Digits(i + j, round, Runs(lengths, iGroup) + j, total);
          units[i + j] := iGroup;
          j := j + 1;
        }
        i := i + lengths[iGroup];
        iGroup := iGroup + 1;
      }
      if iGroup == |lengths| {
        assert (round + 1) * total == round * total + total;
        round := round + 1;
      } else {
        RunsMonotone(lengths, 1, if iGroup > 0 then iGroup else 1);
      }
    }
  }

  // --- type 1, dispersed (8.2.2.2) ---

  function DispersedGroup(x: nat, y: nat, n: nat): nat
    requires n > 0
  {
    (x + y * n / 2) % n
  }

  method Dispersed(units: array<int>, w: nat, h: nat, n: nat)
    requires w > 0 && n > 0 && w * h <= units.Length
    modifies units
    ensures forall i | 0 <= i < w * h :: units[i] == DispersedGroup(i % w, i / w, n) < n
  {
    for i := 0 to w * h
      invariant forall j | 0 <= j < i :: units[j] == DispersedGroup(j % w, j / w, n) < n
    {
      units[i] := (i % w + i / w * n / 2) % n;
    }
  }

  /** Dispersed: neighbours in a row or a column are in different groups. */
  lemma DispersedNeighbours(x: nat, y: nat, n: nat)
    requires n >= 2
    ensures DispersedGroup(x + 1, y, n) != DispersedGroup(x, y, n)
    ensures DispersedGroup(x, y + 1, n) != DispersedGroup(x, y, n)
  {
    var a, b := x + y * n / 2, x + (y + 1) * n / 2;
    assert (y + 1) * n == y * n + n;
    Apart(a, 1, n);
    Apart(a, b - a, n);
  }

  lemma Apart(a: nat, d: int, n: nat)
    requires 0 < d < n
    ensures (a + d) % n != a % n
  {
    var q, r := a / n, a % n;
    assert a == q * n + r;
    if r + d < n {
      Digits(a + d, q, r + d, n);
    } else {
      assert (q + 1) * n == q * n + n;
      Digits(a + d, q + 1, r + d - n, n);
    }
  }

  // --- type 2, foreground with left-over (8.2.2.3) ---

  /** The rectangle of a foreground group, from its corner units. */
  predicate InRectangle(topLeft: nat, bottomRight: nat, w: nat, x: nat, y: nat)
    requires w > 0
  {
    topLeft / w <= y <= bottomRight / w && topLeft % w <= x <= bottomRight % w
  }

  // g is the lowest group from lo on that holds the unit.
  ghost predicate IsLowest(g: int, lo: nat, n: nat, topLeft: seq<nat>, bottomRight: seq<nat>, w: nat, u: nat)
    requires w > 0 && |topLeft| == |bottomRight| == n - 1
  {
    && lo <= g < n
    && (g < n - 1 ==> InRectangle(topLeft[g], bottomRight[g], w, Col(u, w), Row(u, w)))
    && forall k | lo <= k < g :: !InRectangle(topLeft[k], bottomRight[k], w, Col(u, w), Row(u, w))
  }

  /** Every unit takes the lowest group whose rectangle holds it, or the last group. */
  method Foreground(units: array<int>, w: nat, h: nat, n: nat, topLeft: seq<nat>, bottomRight: seq<nat>)
    requires w > 0 && n >= 1 && w * h <= units.Length && |topLeft| == |bottomRight| == n - 1
    modifies units
    ensures forall u | 0 <= u < w * h :: IsLowest(units[u], 0, n, topLeft, bottomRight, w, u)
  {
    for u := 0 to w * h
      invariant forall v | 0 <= v < u :: units[v] == n - 1
    {
      units[u] := n - 1;
    }
    var iGroup := n - 1;
    while iGroup > 0
      invariant 0 <= iGroup <= n - 1
      invariant forall u | 0 <= u < w * h :: IsLowest(units[u], iGroup, n, topLeft, bottomRight, w, u)
    {
      iGroup := iGroup - 1;
      Fill(units, w, h, topLeft[iGroup], bottomRight[iGroup], iGroup);
    }
  }

  // The loops over one rectangle, clipped at the bottom.
  method Fill(units: array<int>, w: nat, h: nat, topLeft: nat, bottomRight: nat, group: nat)
    requires w > 0 && w * h <= units.Length
    modifies units
    ensures forall u | 0 <= u < w * h ::
              units[u] == if InRectangle(topLeft, bottomRight, w, Col(u, w), Row(u, w)) then group else old(units[u])
  {
    hide Unit, Row, Col;
    var yTopLeft, xTopLeft := topLeft / w, topLeft % w;
    var yBottomRight, xBottomRight := bottomRight / w, bottomRight % w;
    var y := yTopLeft;
    while y <= yBottomRight && y < h
      invariant yTopLeft <= y
      invariant forall u | 0 <= u < w * h ::
          units[u] == if Painted(topLeft, bottomRight, w, u, y, 0) then group else old(units[u])
      decreases h - y
    {
      var x := xTopLeft;
      RowStart(topLeft, bottomRight, w, h, y, x);
      while x <= xBottomRight
        invariant xTopLeft <= x
        invariant forall u | 0 <= u < w * h ::
            units[u] == if Painted(topLeft, bottomRight, w, u, y, x) then group else old(units[u])
      {
        UnitAt(y, x, w, h);
        PaintedNext(topLeft, bottomRight, w, h, y, x);
        units[Unit(y, x, w)] := group;
        x := x + 1;
      }
      RowEnd(topLeft, bottomRight, w, h, y, x);
      y := y + 1;
    }
    AllPainted(topLeft, bottomRight, w, h, y);
  }

  // The units of the rectangle in the rows before y, and in row y before column x.
  predicate Painted(topLeft: nat, bottomRight: nat, w: nat, u: nat, y: nat, x: nat)
    requires w > 0
  {
    InRectangle(topLeft, bottomRight, w, Col(u, w), Row(u, w)) && (Row(u, w) < y || (Row(u, w) == y && Col(u, w) < x))
  }

  lemma RowStart(topLeft: nat, bottomRight: nat, w: nat, h: nat, y: nat, x: nat)
    requires w > 0 && x == topLeft % w
    ensures forall u | 0 <= u < w * h :: Painted(topLeft, bottomRight, w, u, y, x) <==> Painted(topLeft, bottomRight,
        w, u, y, 0)
  {
  }

  lemma PaintedNext(topLeft: nat, bottomRight: nat, w: nat, h: nat, y: nat, x: nat)
    requires w > 0 && y < h && topLeft / w <= y <= bottomRight / w && topLeft % w <= x <= bottomRight % w
    ensures forall u: nat | u < w * h :: Painted(topLeft, bottomRight, w, u, y, x + 1)
              <==> Painted(topLeft, bottomRight, w, u, y, x) || u == Unit(y, x, w)
  {
    hide Unit, Row, Col;
    UnitAt(y, x, w, h);
    forall u: nat | u < w * h
      ensures Painted(topLeft, bottomRight, w, u, y, x + 1) <==>
            Painted(topLeft, bottomRight, w, u, y, x) || u == Unit(y, x, w)
    {
      UnitOf(u, w, h);
    }
  }

  lemma RowEnd(topLeft: nat, bottomRight: nat, w: nat, h: nat, y: nat, x: nat)
    requires w > 0 && x > bottomRight % w
    ensures forall u | 0 <= u < w * h :: Painted(topLeft, bottomRight, w, u, y, x) <==> Painted(topLeft, bottomRight,
        w, u, y + 1, 0)
  {
  }

  lemma AllPainted(topLeft: nat, bottomRight: nat, w: nat, h: nat, y: nat)
    requires w > 0 && (y >= h || y > bottomRight / w)
    ensures forall u: nat | u < w * h :: Painted(topLeft, bottomRight, w, u, y, 0)
              <==> InRectangle(topLeft, bottomRight, w, Col(u, w), Row(u, w))
  {
    forall u: nat | u < w * h
      ensures Row(u, w) < h
    {
      UnitOf(u, w, h);
    }
  }

  // --- type 3, box-out (8.2.2.4) ---

  /** The walk of the box-out: position, bounds of the box, direction, and the units taken so far. */
  datatype Walk = Walk(x: int, y: int, left: int, top: int, right: int, bottom: int, xDir: int, yDir: int,
      taken: set<nat>)

  // The walk stays in its box, the box in the picture, and the direction is one of four.
  predicate InBox(s: Walk, w: nat, h: nat) {
    && 0 <= s.left <= s.x <= s.right < w && 0 <= s.top <= s.y <= s.bottom < h
    && ((s.xDir == 0 && (s.yDir == 1 || s.yDir == -1)) || (s.yDir == 0 && (s.xDir == 1 || s.xDir == -1)))
  }

  // From the middle of the picture, to the left with flag 0 and down with flag 1.
  function Start(w: nat, h: nat, flag: nat): (s: Walk)
    requires w > 0 && h > 0 && flag <= 1
    ensures InBox(s, w, h) && w - 1 <= 2 * s.x + flag <= w && h - 1 <= 2 * s.y + flag <= h
    ensures (s.xDir, s.yDir) == if flag == 0 then (-1, 0) else (0, 1)
  {
    var x, y := (w - flag) / 2, (h - flag) / 2;
    Walk(x, y, x, y, x, y, flag - 1, flag, {})
  }

  /** One round of the loop of 8.2.2.4: the unit is taken, then the walk turns at the box or goes straight on. */
  function Step(s: Walk, w: nat, h: nat, flag: nat): (r: Walk)
    requires InBox(s, w, h) && flag <= 1
    ensures InBox(r, w, h) && r.left <= s.left && r.top <= s.top && r.right >= s.right && r.bottom >= s.bottom
  {
    var t := s.(taken := s.taken + {Unit(s.y, s.x, w)});
    if s.xDir == -1 && s.x == s.left then
      var b := Max(s.left - 1, 0);
      t.(left := b, x := b, xDir := 0, yDir := 2 * flag - 1)
    else if s.xDir == 1 && s.x == s.right then
      var b := Min(s.right + 1, w - 1);
      t.(right := b, x := b, xDir := 0, yDir := 1 - 2 * flag)
    else if s.yDir == -1 && s.y == s.top then
      var b := Max(s.top - 1, 0);
      t.(top := b, y := b, xDir := 1 - 2 * flag, yDir := 0)
    else if s.yDir == 1 && s.y == s.bottom then
      var b := Min(s.bottom + 1, h - 1);
      t.(bottom := b, y := b, xDir := 2 * flag - 1, yDir := 0)
    else t.(x := s.x + s.xDir, y := s.y + s.yDir)
  }

  function Walked(w: nat, h: nat, flag: nat, n: nat): (s: Walk)
    requires w > 0 && h > 0 && flag <= 1
    ensures InBox(s, w, h)
  {
    if n == 0 then Start(w, h, flag) else Step(Walked(w, h, flag, n - 1), w, h, flag)
  }

  // The units taken are units of the box.
  lemma {:induction false} TakenInBox(w: nat, h: nat, flag: nat, n: nat, u: nat)
    requires w > 0 && h > 0 && flag <= 1 && u in Walked(w, h, flag, n).taken
    ensures var s := Walked(w, h, flag, n);
            u < w * h && s.left <= Col(u, w) <= s.right && s.top <= Row(u, w) <= s.bottom
  {
    if n > 0 {
      var p := Walked(w, h, flag, n - 1);
      if u in p.taken {
        TakenInBox(w, h, flag, n - 1, u);
      } else {
        UnitAt(p.y, p.x, w, h);
      }
    }
  }

  // The walk goes along the sides of its box: clockwise in the picture with flag 0, the other way with flag 1.
  predicate AlongSide(s: Walk, flag: nat) {
    && (s.xDir == 1 ==> s.y == if flag == 0 then s.top else s.bottom)
    && (s.xDir == -1 ==> s.y == if flag == 0 then s.bottom else s.top)
    && (s.yDir == 1 ==> s.x == if flag == 0 then s.right else s.left)
    && (s.yDir == -1 ==> s.x == if flag == 0 then s.left else s.right)
  }

  // Where the walk is, and what lies ahead of it.
  predicate Ahead(s: Walk, col: int, row: int) {
    if s.xDir == 1 then row == s.y && col >= s.x
    else if s.xDir == -1 then row == s.y && col <= s.x
    else if s.yDir == 1 then col == s.x && row >= s.y
    else col == s.x && row <= s.y
  }

  /** The walk winds around: all of its box is taken but for what lies ahead on the side it goes along. */
  lemma {:induction false} BoxFilled(w: nat, h: nat, flag: nat, n: nat, col: nat, row: nat)
    requires w > 0 && h > 0 && flag <= 1
    ensures var s := Walked(w, h, flag, n);
            && AlongSide(s, flag)
            && (s.left <= col <= s.right && s.top <= row <= s.bottom && !Ahead(s, col, row) ==>
                row * w + col in s.taken)
  {
    if n > 0 {
      BoxFilled(w, h, flag, n - 1, col, row);
    }
  }

  /** A side is left for the next one exactly at its end, where the box grows by one line if the picture has one. */
  lemma SideEnds(s: Walk, w: nat, h: nat, flag: nat)
    requires InBox(s, w, h) && flag <= 1 && AlongSide(s, flag)
    ensures var r := Step(s, w, h, flag);
            if s.left <= s.x + s.xDir <= s.right && s.top <= s.y + s.yDir <= s.bottom
            then r == s.(x := s.x + s.xDir, y := s.y + s.yDir, taken := s.taken + {s.y * w + s.x})
            else
              && r.left == (if s.xDir == -1 && s.left > 0 then s.left - 1 else s.left)
              && r.right == (if s.xDir == 1 && s.right < w - 1 then s.right + 1 else s.right)
              && r.top == (if s.yDir == -1 && s.top > 0 then s.top - 1 else s.top)
              && r.bottom == (if s.yDir == 1 && s.bottom < h - 1 then s.bottom + 1 else s.bottom)
              && (r.xDir, r.yDir) == if flag == 0 then (-s.yDir, s.xDir) else (s.yDir, -s.xDir)
  {
  }

  /**
   * Box-out: group 0 is what the walk of the standard takes in n steps, the first to make it
   * MapUnitsInSliceGroup0 units, or the last step the code allows.
   */
  method BoxOut(units: array<int>, w: nat, h: nat, flag: nat, units0: nat) returns (ghost n: nat)
    requires w > 0 && h > 0 && flag <= 1 && w * h <= units.Length && units0 <= w * h
    modifies units
    ensures forall u: nat | u < w * h :: units[u] == if u in Walked(w, h, flag, n).taken then 0 else 1
    ensures Card(Walked(w, h, flag, n).taken) == units0
            || (n == 8 * (w * h) + 16 && Card(Walked(w, h, flag, n).taken) < units0)
    ensures n <= 8 * (w * h) + 16 && (n > 0 ==> Card(Walked(w, h, flag, n - 1).taken) < units0)
  {
    hide Unit, Row, Col, Card, InBox, Start, Step;
    for u := 0 to w * h
      invariant forall v | 0 <= v < u :: units[v] == 1
    {
      units[u] := 1;
    }
    var s := Start(w, h, flag);
    var k, steps := 0, 0;
    StartEmpty(w, h, flag);
    while k < units0 && steps < 8 * (w * h) + 16
      invariant s.(taken := {}) == Walked(w, h, flag, steps).(taken := {}) && steps <= 8 * (w * h) + 16
      invariant k == Card(Walked(w, h, flag, steps).taken) <= units0
      invariant forall u: nat | u < w * h :: units[u] == if u in Walked(w, h, flag, steps).taken then 0 else 1
      invariant steps > 0 ==> Card(Walked(w, h, flag, steps - 1).taken) < units0
      decreases 8 * (w * h) + 16 - steps
    {
      ghost var p := Walked(w, h, flag, steps);
      BoxInside(s, p, w, h);
      var u := Unit(s.y, s.x, w);
      CardInsert(p.taken, u);
      StepTakes(p, s, w, h, flag);
      var vacant := if units[u] == 1 then 1 else 0;
      if vacant == 1 {
        units[u] := 0;
      }
      s := Step(s, w, h, flag);
      k, steps := k + vacant, steps + 1;
    }
    n := steps;
  }

  lemma StartEmpty(w: nat, h: nat, flag: nat)
    requires w > 0 && h > 0 && flag <= 1
    ensures Start(w, h, flag).taken == {} && Card<nat>({}) == 0
  {
  }

  lemma BoxInside(s: Walk, p: Walk, w: nat, h: nat)
    requires s.(taken := {}) == p.(taken := {}) && InBox(p, w, h)
    ensures InBox(s, w, h) && 0 <= s.x && 0 <= s.y && Unit(s.y, s.x, w) < w * h
  {
    UnitInside(s.y, s.x, w, h);
  }

  lemma StepTakes(p: Walk, s: Walk, w: nat, h: nat, flag: nat)
    requires InBox(p, w, h) && InBox(s, w, h) && flag <= 1 && s.(taken := {}) == p.(taken := {})
    ensures Step(p, w, h, flag).taken == p.taken + {Unit(s.y, s.x, w)}
    ensures Step(s, w, h, flag).(taken := {}) == Step(p, w, h, flag).(taken := {})
  {
  }

  // --- types 4 and 5, raster scan and wipe (8.2.2.5, 8.2.2.6) ---

  // The units of group 0.
  ghost function ZeroUnits(units: seq<int>): set<nat> {
    set u: nat | u < |units| && units[u] == 0
  }

  ghost function Below(n: nat): (s: set<nat>)
    ensures Card(s) == n && forall u: nat :: u in s <==> u < n
  {
    if n == 0 then {} else
      CardInsert(Below(n - 1), n - 1);
      Below(n - 1) + {n - 1}
  }

  // (7-35)
  function UpperLeft(flag: bool, size: nat, units0: nat): nat
    requires units0 <= size
  {
    if flag then size - units0 else units0
  }

  // 1 for the upper left units if the direction flag is set, 0 otherwise, and the opposite beyond.
  function Side(flag: bool, k: nat, upperLeft: nat): int {
    if k < upperLeft then if flag then 1 else 0 else if flag then 0 else 1
  }

  /** Raster scan: exactly MapUnitsInSliceGroup0 units are in group 0, the first ones or the last ones. */
  method RasterScan(units: array<int>, size: nat, flag: bool, units0: nat)
    requires size <= units.Length && units0 <= size
    modifies units
    ensures forall i | 0 <= i < size :: units[i] == Side(flag, i, UpperLeft(flag, size, units0))
    ensures Card(ZeroUnits(units[..size])) == units0
  {
    var upperLeft := UpperLeft(flag, size, units0);
    for i := 0 to size
      invariant forall j | 0 <= j < i :: units[j] == Side(flag, j, upperLeft)
    {
      units[i] := if i < upperLeft then if flag then 1 else 0 else if flag then 0 else 1;
    }
    RasterZeros(units[..size], flag, units0);
  }

  lemma RasterZeros(units: seq<int>, flag: bool, units0: nat)
    requires units0 <= |units| && forall i | 0 <= i < |units| ::
        units[i] == Side(flag, i, UpperLeft(flag, |units|, units0))
    ensures Card(ZeroUnits(units)) == units0
  {
    var size := |units|;
    if flag {
      CardDifference(Below(size), Below(size - units0));
      assert ZeroUnits(units) == Below(size) - Below(size - units0);
    } else {
      assert ZeroUnits(units) == Below(units0);
    }
  }

  /** The order of the wipe: column after column. */
  function WipeOrder(u: nat, w: nat, h: nat): nat
    requires w > 0
  {
    Col(u, w) * h + Row(u, w)
  }

  /** Wipe: the same numbers of units, in columns instead of rows. */
  method Wipe(units: array<int>, w: nat, h: nat, flag: bool, units0: nat)
    requires w > 0 && w * h <= units.Length && units0 <= w * h
    modifies units
    ensures forall u | 0 <= u < w * h :: units[u] == Side(flag, WipeOrder(u, w, h), UpperLeft(flag, w * h, units0))
    ensures Card(ZeroUnits(units[..w * h])) == units0
  {
    hide Unit, Row, Col, Side, ZeroUnits, WipeOrder;
    var upperLeft := UpperLeft(flag, w * h, units0);
    RowsInside(w, h);
    var k := 0;
    for j := 0 to w
      invariant k == j * h
      invariant forall u: nat | u < w * h && Col(u, w) < j :: units[u] == Side(flag, WipeOrder(u, w, h), upperLeft)
    {
      WipeColumn(units, w, h, j, flag, upperLeft);
      k := k + h;
    }
    WipeZeros(units[..w * h], w, h, flag, units0);
  }

  lemma RowsInside(w: nat, h: nat)
    requires w > 0
    ensures forall u: nat | u < w * h :: Row(u, w) < h
  {
    forall u: nat | u < w * h
      ensures Row(u, w) < h
    {
      UnitOf(u, w, h);
    }
  }

  // The inner loop, with k counting on from j * h.
  method WipeColumn(units: array<int>, w: nat, h: nat, j: nat, flag: bool, upperLeft: nat)
    requires j < w && w * h <= units.Length
    modifies units
    ensures forall u: nat | u < w * h ::
              units[u] == if Col(u, w) == j then Side(flag, WipeOrder(u, w, h), upperLeft) else old(units[u])
  {
    hide Unit, Row, Col, Side;
    RowsInside(w, h);
    var k := j * h;
    for i := 0 to h
      invariant k == j * h + i
      invariant forall u: nat | u < w * h ::
          units[u] == if Col(u, w) == j && Row(u, w) < i then Side(flag, WipeOrder(u, w, h),
              upperLeft) else old(units[u])
    {
      UnitAt(i, j, w, h);
      OnlyUnit(i, j, w, h);
      units[Unit(i, j, w)] := Side(flag, k, upperLeft);
      k := k + 1;
    }
  }

  lemma OnlyUnit(i: nat, j: nat, w: nat, h: nat)
    requires j < w && i < h
    ensures forall u: nat | u < w * h && Col(u, w) == j && Row(u, w) == i :: u == Unit(i, j, w)
  {
    hide Unit, Row, Col;
    forall u: nat | u < w * h && Col(u, w) == j && Row(u, w) == i
      ensures u == Unit(i, j, w)
    {
      UnitOf(u, w, h);
    }
  }

  // The first n units in the order of the wipe.
  ghost function WipeFirst(w: nat, h: nat, n: nat): set<nat>
    requires w > 0
  {
    set u: nat | u < w * h && WipeOrder(u, w, h) < n
  }

  lemma Positive(w: nat, h: nat)
    requires w * h > 0
    ensures h > 0
  {
  }

  lemma WipeInverse(w: nat, h: nat, n: nat) returns (v: nat)
    requires w > 0 && n < w * h
    ensures v < w * h && WipeOrder(v, w, h) == n
    ensures forall u: nat | u < w * h && WipeOrder(u, w, h) == n :: u == v
  {
    hide Unit, Row, Col;
    Positive(w, h);
    assert w * h == h * w;
    RowInside(n, h, w);
    v := Unit(n % h, n / h, w);
    UnitAt(n % h, n / h, w, h);
    forall u: nat | u < w * h && WipeOrder(u, w, h) == n
      ensures u == v
    {
      UnitOf(u, w, h);
      Digits(n, Col(u, w), Row(u, w), h);
    }
  }

  lemma {:induction false} WipeCount(w: nat, h: nat, n: nat)
    requires w > 0 && n <= w * h
    ensures Card(WipeFirst(w, h, n)) == n
  {
    hide WipeOrder;
    if n == 0 {
      assert WipeFirst(w, h, n) == {};
    } else {
      WipeCount(w, h, n - 1);
      var v := WipeInverse(w, h, n - 1);
      assert WipeFirst(w, h, n) == WipeFirst(w, h, n - 1) + {v};
      CardInsert(WipeFirst(w, h, n - 1), v);
    }
  }

  lemma WipeBelow(u: nat, w: nat, h: nat)
    requires w > 0 && u < w * h
    ensures WipeOrder(u, w, h) < w * h
  {
    hide Unit, Row, Col;
    UnitOf(u, w, h);
    UnitInside(Col(u, w), Row(u, w), h, w);
    assert h * w == w * h;
  }

  lemma WipeZeros(units: seq<int>, w: nat, h: nat, flag: bool, units0: nat)
    requires w > 0 && |units| == w * h && units0 <= |units|
    requires forall u | 0 <= u < |units| :: units[u] == Side(flag, WipeOrder(u, w, h), UpperLeft(flag, |units|, units0))
    ensures Card(ZeroUnits(units)) == units0
  {
    hide WipeOrder, Card;
    var size := |units|;
    forall u: nat | u < size
      ensures WipeOrder(u, w, h) < size
    {
      WipeBelow(u, w, h);
    }
    WipeCount(w, h, units0);
    if flag {
      WipeCount(w, h, size);
      WipeCount(w, h, size - units0);
      CardDifference(WipeFirst(w, h, size), WipeFirst(w, h, size - units0));
      assert ZeroUnits(units) == WipeFirst(w, h, size) - WipeFirst(w, h, size - units0);
    } else {
      assert ZeroUnits(units) == WipeFirst(w, h, units0);
    }
  }
}
