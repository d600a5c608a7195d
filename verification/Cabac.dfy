/**
 * The CABAC engine (clauses 9.3.1.2 and 9.3.3.2 of H.264), on a range and an offset scaled by a power
 * of two that the leading bit of range implies, with bits fetched seven or six bytes at a time.
 */
module Cabac {
  import opened Arithmetic
  import opened Bits
  import opened Nal
  import opened Cache
  import opened BitReader

  // Four entries of a table.
  datatype Quad = Quad(e0: nat, e1: nat, e2: nat, e3: nat) {
    function At(q: nat): nat {
      if q == 0 then e0 else if q == 1 then e1 else if q == 2 then e2 else e3
    }
  }

  // Table 9-44, for each state.
  function RangeRow(p: nat): Quad
    requires p < 64
  {
    match p
    case 0 => Quad(128, 176, 208, 240) case 1 => Quad(128, 167, 197, 227)
    case 2 => Quad(128, 158, 187, 216) case 3 => Quad(123, 150, 178, 205)
    case 4 => Quad(116, 142, 169, 195) case 5 => Quad(111, 135, 160, 185)
    case 6 => Quad(105, 128, 152, 175) case 7 => Quad(100, 122, 144, 166)
    case 8 => Quad(95, 116, 137, 158) case 9 => Quad(90, 110, 130, 150)
    case 10 => Quad(85, 104, 123, 142) case 11 => Quad(81, 99, 117, 135)
    case 12 => Quad(77, 94, 111, 128) case 13 => Quad(73, 89, 105, 122)
    case 14 => Quad(69, 85, 100, 116) case 15 => Quad(66, 80, 95, 110)
    case 16 => Quad(62, 76, 90, 104) case 17 => Quad(59, 72, 86, 99)
    case 18 => Quad(56, 69, 81, 94) case 19 => Quad(53, 65, 77, 89)
    case 20 => Quad(51, 62, 73, 85) case 21 => Quad(48, 59, 69, 80)
    case 22 => Quad(46, 56, 66, 76) case 23 => Quad(43, 53, 63, 72)
    case 24 => Quad(41, 50, 59, 69) case 25 => Quad(39, 48, 56, 65)
    case 26 => Quad(37, 45, 54, 62) case 27 => Quad(35, 43, 51, 59)
    case 28 => Quad(33, 41, 48, 56) case 29 => Quad(32, 39, 46, 53)
    case 30 => Quad(30, 37, 43, 50) case 31 => Quad(29, 35, 41, 48)
    case 32 => Quad(27, 33, 39, 45) case 33 => Quad(26, 31, 37, 43)
    case 34 => Quad(24, 30, 35, 41) case 35 => Quad(23, 28, 33, 39)
    case 36 => Quad(22, 27, 32, 37) case 37 => Quad(21, 26, 30, 35)
    case 38 => Quad(20, 24, 29, 33) case 39 => Quad(19, 23, 27, 31)
    case 40 => Quad(18, 22, 26, 30) case 41 => Quad(17, 21, 25, 28)
    case 42 => Quad(16, 20, 23, 27) case 43 => Quad(15, 19, 22, 25)
    case 44 => Quad(14, 18, 21, 24) case 45 => Quad(14, 17, 20, 23)
    case 46 => Quad(13, 16, 19, 22) case 47 => Quad(12, 15, 18, 21)
    case 48 => Quad(12, 14, 17, 20) case 49 => Quad(11, 14, 16, 19)
    case 50 => Quad(11, 13, 15, 18) case 51 => Quad(10, 12, 15, 17)
    case 52 => Quad(10, 12, 14, 16) case 53 => Quad(9, 11, 13, 15)
    case 54 => Quad(9, 11, 12, 14) case 55 => Quad(8, 10, 12, 14)
    case 56 => Quad(8, 9, 11, 13) case 57 => Quad(7, 9, 11, 12)
    case 58 => Quad(7, 9, 10, 12) case 59 => Quad(7, 8, 10, 11)
    case 60 => Quad(6, 8, 9, 11) case 61 => Quad(6, 7, 9, 10)
    case 62 => Quad(6, 7, 8, 9) case _ => Quad(2, 2, 2, 2)
  }

  function RangeTabLPS(i: nat): nat
    requires i < 256
  {
    RangeRow(i / 4).At(i % 4)
  }

  // Next coded context, at the coded one after an MPS and at its complement after an LPS.
  function TransRow(p: nat): Quad
    requires p < 64
  {
    match p
    case 0 => Quad(4, 5, 253, 252) case 1 => Quad(8, 9, 153, 152)
    case 2 => Quad(12, 13, 153, 152) case 3 => Quad(16, 17, 149, 148)
    case 4 => Quad(20, 21, 149, 148) case 5 => Quad(24, 25, 149, 148)
    case 6 => Quad(28, 29, 145, 144) case 7 => Quad(32, 33, 145, 144)
    case 8 => Quad(36, 37, 145, 144) case 9 => Quad(40, 41, 141, 140)
    case 10 => Quad(44, 45, 141, 140) case 11 => Quad(48, 49, 141, 140)
    case 12 => Quad(52, 53, 137, 136) case 13 => Quad(56, 57, 137, 136)
    case 14 => Quad(60, 61, 133, 132) case 15 => Quad(64, 65, 133, 132)
    case 16 => Quad(68, 69, 133, 132) case 17 => Quad(72, 73, 129, 128)
    case 18 => Quad(76, 77, 129, 128) case 19 => Quad(80, 81, 125, 124)
    case 20 => Quad(84, 85, 121, 120) case 21 => Quad(88, 89, 121, 120)
    case 22 => Quad(92, 93, 121, 120) case 23 => Quad(96, 97, 117, 116)
    case 24 => Quad(100, 101, 117, 116) case 25 => Quad(104, 105, 113, 112)
    case 26 => Quad(108, 109, 109, 108) case 27 => Quad(112, 113, 109, 108)
    case 28 => Quad(116, 117, 105, 104) case 29 => Quad(120, 121, 105, 104)
    case 30 => Quad(124, 125, 101, 100) case 31 => Quad(128, 129, 97, 96)
    case 32 => Quad(132, 133, 97, 96) case 33 => Quad(136, 137, 93, 92)
    case 34 => Quad(140, 141, 89, 88) case 35 => Quad(144, 145, 89, 88)
    case 36 => Quad(148, 149, 85, 84) case 37 => Quad(152, 153, 85, 84)
    case 38 => Quad(156, 157, 77, 76) case 39 => Quad(160, 161, 77, 76)
    case 40 => Quad(164, 165, 73, 72) case 41 => Quad(168, 169, 73, 72)
    case 42 => Quad(172, 173, 65, 64) case 43 => Quad(176, 177, 65, 64)
    case 44 => Quad(180, 181, 61, 60) case 45 => Quad(184, 185, 61, 60)
    case 46 => Quad(188, 189, 53, 52) case 47 => Quad(192, 193, 53, 52)
    case 48 => Quad(196, 197, 49, 48) case 49 => Quad(200, 201, 45, 44)
    case 50 => Quad(204, 205, 45, 44) case 51 => Quad(208, 209, 37, 36)
    case 52 => Quad(212, 213, 37, 36) case 53 => Quad(216, 217, 33, 32)
    case 54 => Quad(220, 221, 29, 28) case 55 => Quad(224, 225, 25, 24)
    case 56 => Quad(228, 229, 21, 20) case 57 => Quad(232, 233, 17, 16)
    case 58 => Quad(236, 237, 17, 16) case 59 => Quad(240, 241, 9, 8)
    case 60 => Quad(244, 245, 9, 8) case 61 => Quad(248, 249, 5, 4)
    case 62 => Quad(248, 249, 1, 0) case _ => Quad(252, 253, 0, 1)
  }

  function TransIdx(i: nat): nat
    requires i < 256
  {
    TransRow(i / 4).At(i % 4)
  }

  // Table 9-45 (transIdxMPS is the next index, up to 62).
  function TransIdxLPS(p: nat): nat
    requires p < 64
  {
    match p
    case 0 => 0 case 1 => 0 case 2 => 1 case 3 => 2 case 4 => 2 case 5 => 4 case 6 => 4 case 7 => 5
    case 8 => 6 case 9 => 7 case 10 => 8 case 11 => 9 case 12 => 9 case 13 => 11 case 14 => 11 case 15 => 12
    case 16 => 13 case 17 => 13 case 18 => 15 case 19 => 15 case 20 => 16 case 21 => 16 case 22 => 18 case 23 => 18
    case 24 => 19 case 25 => 19 case 26 => 21 case 27 => 21 case 28 => 22 case 29 => 22 case 30 => 23 case 31 => 24
    case 32 => 24 case 33 => 25 case 34 => 26 case 35 => 26 case 36 => 27 case 37 => 27 case 38 => 28 case 39 => 29
    case 40 => 29 case 41 => 30 case 42 => 30 case 43 => 30 case 44 => 31 case 45 => 32 case 46 => 32 case 47 => 33
    case 48 => 33 case 49 => 33 case 50 => 34 case 51 => 34 case 52 => 35 case 53 => 35 case 54 => 35 case 55 => 36
    case 56 => 36 case 57 => 36 case 58 => 37 case 59 => 37 case 60 => 37 case 61 => 38 case 62 => 38 case _ => 63
  }

  /** A context variable, and the engine of the standard: codIRange, codIOffset and the bits read. */
  datatype Ctx = Ctx(pStateIdx: nat, valMPS: nat)
  datatype Engine = Engine(R: nat, O: nat, pos: nat)

  predicate ValidCtx(c: Ctx) {
    c.pStateIdx < 64 && c.valMPS <= 1
  }

  function AfterMps(c: Ctx): (n: Ctx)
    requires ValidCtx(c)
    ensures ValidCtx(n)
  {
    Ctx(if c.pStateIdx < 62 then c.pStateIdx + 1 else c.pStateIdx, c.valMPS)
  }

  function AfterLps(c: Ctx): Ctx
    requires ValidCtx(c)
  {
    Ctx(TransIdxLPS(c.pStateIdx), if c.pStateIdx == 0 then 1 - c.valMPS else c.valMPS)
  }

  // The context as cabac[ctxIdx] holds it.
  function Code(c: Ctx): nat {
    4 * c.pStateIdx + c.valMPS
  }

  lemma MpsRow(p: nat)
    requires p < 64
    ensures var n := 4 * (if p < 62 then p + 1 else p);
            TransRow(p).e0 == n && TransRow(p).e1 == n + 1
  {
  }

  // Row p holds the transitions of state 63 - p after an LPS.
  predicate LpsAt(p: nat)
    requires p < 64
  {
    var n := 4 * TransIdxLPS(63 - p);
    n < 256 && TransRow(p).e3 == (if p == 63 then n + 1 else n) && TransRow(p).e2 == (if p == 63 then n else n + 1)
  }

  lemma LpsAt0(p: nat)
    requires p < 16
    ensures LpsAt(p)
  {
  }

  lemma LpsAt16(p: nat)
    requires 16 <= p < 32
    ensures LpsAt(p)
  {
  }

  lemma LpsAt32(p: nat)
    requires 32 <= p < 48
    ensures LpsAt(p)
  {
  }

  lemma LpsAt48(p: nat)
    requires 48 <= p < 64
    ensures LpsAt(p)
  {
  }

  lemma LpsRow(p: nat)
    requires p < 64
    ensures LpsAt(p)
  {
    hide LpsAt;
    if p < 16 { LpsAt0(p); } else if p < 32 { LpsAt16(p); } else if p < 48 { LpsAt32(p); } else { LpsAt48(p); }
  }

  /** The table indexed with complemented states is the transition table of the standard. */
  lemma Transitions(c: Ctx)
    requires ValidCtx(c)
    ensures TransIdx(Code(c)) == Code(AfterMps(c))
    ensures ValidCtx(AfterLps(c)) && TransIdx(255 - Code(c)) == Code(AfterLps(c))
  {
    hide TransRow, TransIdxLPS;
    var p, m := c.pStateIdx, c.valMPS;
    assert Code(c) / 4 == p && Code(c) % 4 == m;
    assert (255 - Code(c)) / 4 == 63 - p && (255 - Code(c)) % 4 == 3 - m;
    MpsRow(p);
    LpsRow(63 - p);
    assert 63 - (63 - p) == p;
  }

  lemma Ranges(p: nat, q: nat)
    requires p < 64 && q < 4
    ensures 2 <= RangeTabLPS(4 * p + q) <= 240
  {
    assert (4 * p + q) / 4 == p && (4 * p + q) % 4 == q;
  }

  // RenormD (Figure 9-33).
  function RenormD(s: seq<byte>, g: Engine): (r: Engine)
    requires 0 < g.R < 512 && g.O < g.R
    ensures 256 <= r.R < 512 && r.O < r.R
    decreases 512 - g.R
  {
    if g.R >= 256 then g else RenormD(s, Doubled(s, g))
  }

  function Doubled(s: seq<byte>, g: Engine): Engine {
    Engine(2 * g.R, 2 * g.O + BitAt(s, g.pos), g.pos + 1)
  }

  datatype Decoded = Decoded(bin: nat, engine: Engine, ctx: Ctx)

  predicate ValidEngine(g: Engine) {
    256 <= g.R < 512 && g.O < g.R
  }

  // codIRangeLPS (9.3.3.2.1).
  function RangeLps(g: Engine, c: Ctx): (l: nat)
    requires ValidEngine(g) && ValidCtx(c)
    ensures 2 <= l <= 240
  {
    Ranges(c.pStateIdx, g.R / 64 % 4);
    RangeTabLPS(4 * c.pStateIdx + g.R / 64 % 4)
  }

  // The engine before renormalization.
  function AfterDecision(g: Engine, c: Ctx): (r: Engine)
    requires ValidEngine(g) && ValidCtx(c)
    ensures 0 < r.R < 512 && r.O < r.R
  {
    var l := RangeLps(g, c);
    if g.O >= g.R - l then Engine(l, g.O - (g.R - l), g.pos) else Engine(g.R - l, g.O, g.pos)
  }

  /** DecodeDecision (9.3.3.2.1). */
  function DecodeDecision(s: seq<byte>, g: Engine, c: Ctx): (d: Decoded)
    requires ValidEngine(g) && ValidCtx(c)
    ensures ValidEngine(d.engine) && ValidCtx(d.ctx)
  {
    Transitions(c);
    var lps := g.O >= g.R - RangeLps(g, c);
    Decoded(if lps then 1 - c.valMPS else c.valMPS, RenormD(s, AfterDecision(g, c)),
            if lps then AfterLps(c) else AfterMps(c))
  }

  /** DecodeBypass (9.3.3.2.3). */
  function DecodeBypass(s: seq<byte>, g: Engine): (d: (nat, Engine))
    requires ValidEngine(g)
    ensures ValidEngine(d.1)
  {
    var o := 2 * g.O + BitAt(s, g.pos);
    if o >= g.R then (1, Engine(g.R, o - g.R, g.pos + 1)) else (0, Engine(g.R, o, g.pos + 1))
  }

  /** DecodeTerminate (9.3.3.2.2.3): after a bin 1 the bits read end the arithmetic code. */
  function DecodeTerminate(s: seq<byte>, g: Engine): (d: (nat, Engine))
    requires ValidEngine(g)
    ensures d.0 == 0 ==> ValidEngine(d.1)
  {
    if g.O >= g.R - 2 then (1, g) else (0, RenormD(s, Engine(g.R - 2, g.O, g.pos)))
  }

  /** What a parser asks for, and the bins it gets from the engine of the standard. */
  datatype Op = Decision(ctxIdx: nat) | Bypass | Terminate

  ghost predicate InTable(next: seq<nat> -> Op, n: nat) {
    forall h :: next(h).Decision? ==> next(h).ctxIdx < n
  }

  ghost function Bins(s: seq<byte>, g: Engine, ctxs: seq<Ctx>, next: seq<nat> -> Op, n: nat, done: seq<nat>): seq<nat>
    requires ValidEngine(g) && (forall c | c in ctxs :: ValidCtx(c)) && InTable(next, |ctxs|)
    decreases n
  {
    if n == 0 then done
    else
      match next(done)
      case Decision(i) =>
        var d := DecodeDecision(s, g, ctxs[i]);
        Bins(s, d.engine, ctxs[i := d.ctx], next, n - 1, done + [d.bin])
      case Bypass =>
        var d := DecodeBypass(s, g);
        Bins(s, d.1, ctxs, next, n - 1, done + [d.0])
      case Terminate =>
        var d := DecodeTerminate(s, g);
        if d.0 == 1 then done + [1] else Bins(s, d.1, ctxs, next, n - 1, done + [d.0])
  }

  /**
   * The engine invariant: range and offset are codIRange and codIOffset times 2^e, and the lower e bits
   * of offset are the next ones of the payload, up to the last one loaded.
   */
  ghost predicate Rep(s: seq<byte>, range: nat, offset: nat, loaded: nat, g: Engine, e: nat) {
    && range == g.R * Pow2(e)
    && offset == g.O * Pow2(e) + ReadBits(s, g.pos, e)
    && g.pos + e == 8 * loaded
    && g.O < g.R
  }

  lemma Difference(r: nat, x: nat, p: nat)
    ensures (r - x) * p == r * p - x * p && 0 * p == 0
  {
  }

  lemma Compare(o: nat, b: nat, x: nat, p: nat)
    requires b < p
    ensures o * p + b >= x * p <==> o >= x
  {
    if o >= x {
      assert (o - x) * p >= 0;
      assert (o - x) * p == o * p - x * p;
    } else {
      MulLess(o, x, p);
    }
  }

  lemma RepOrder(s: seq<byte>, range: nat, offset: nat, loaded: nat, g: Engine, e: nat, x: nat)
    requires Rep(s, range, offset, loaded, g, e)
    ensures offset >= x * Pow2(e) <==> g.O >= x
    ensures offset < range
  {
    hide ReadBits, Pow2;
    Compare(g.O, ReadBits(s, g.pos, e), x, Pow2(e));
    Compare(g.O, ReadBits(s, g.pos, e), g.R, Pow2(e));
  }

  // Taking x off the offset, and a new range.
  lemma RepTake(s: seq<byte>, range: nat, offset: nat, loaded: nat, g: Engine, e: nat, x: nat, r: nat)
    requires Rep(s, range, offset, loaded, g, e) && g.O >= x && g.O - x < r
    ensures offset >= x * Pow2(e)
    ensures Rep(s, r * Pow2(e), offset - x * Pow2(e), loaded, Engine(r, g.O - x, g.pos), e)
  {
    hide ReadBits, Pow2;
    RepOrder(s, range, offset, loaded, g, e, x);
    assert (g.O - x) * Pow2(e) == g.O * Pow2(e) - x * Pow2(e);
  }

  lemma RepDouble(s: seq<byte>, range: nat, offset: nat, loaded: nat, g: Engine, e: nat)
    requires Rep(s, range, offset, loaded, g, e + 1)
    ensures Rep(s, range, offset, loaded, Doubled(s, g), e)
  {
    hide Pow2, BitAt;
    Pow2Step(e);
    ReadBitsConcat(s, g.pos, 1, e);
    OneBit(s, g.pos);
    assert 1 + e == e + 1;
    DoubleOffset(g.O, BitAt(s, g.pos), Pow2(e));
    DoubleOffset(g.R, 0, Pow2(e));
  }

  lemma OneBit(s: seq<byte>, q: nat)
    ensures ReadBits(s, q, 1) == BitAt(s, q)
  {
    ReadBitsStep(s, q, 0);
  }

  lemma DoubleOffset(o: nat, b: nat, p: nat)
    ensures o * (2 * p) + b * p == (2 * o + b) * p
  {
  }

  /** Renormalization changes neither range nor offset, as long as range is at least 256. */
  lemma {:induction false} RepRenorm(s: seq<byte>, range: nat, offset: nat, loaded: nat, g: Engine, e: nat)
    returns (f: nat)
    requires Rep(s, range, offset, loaded, g, e) && 256 <= range && 0 < g.R < 512
    ensures Rep(s, range, offset, loaded, RenormD(s, g), f)
    decreases 512 - g.R
  {
    if g.R >= 256 {
      f := e;
    } else {
      assert Pow2(0) == 1;
      RepDouble(s, range, offset, loaded, g, e - 1);
      f := RepRenorm(s, range, offset, loaded, Doubled(s, g), e - 1);
    }
  }

  /** Fetching n bytes: nothing is shifted out of 64 bits. */
  lemma RepRefill(s: seq<byte>, range: nat, offset: nat, loaded: nat, g: Engine, e: nat, n: nat, bytes: nat)
    requires Rep(s, range, offset, loaded, g, e) && 1 <= n < 8 && range * Pow2(8 * n) < WORD
    requires Shr(bytes, 8 * (8 - n)) == ReadBytes(s, loaded, n)
    ensures Shl(range, 8 * n) == range * Pow2(8 * n)
    ensures Rep(s, Shl(range, 8 * n), Shld(bytes, offset, 8 * n), loaded + n, g, e + 8 * n)
  {
    hide Pow2, ReadBits, ReadBytes, Word, Shl, Shr;
    RepOrder(s, range, offset, loaded, g, e, 0);
    MulLess(offset, range, Pow2(8 * n));
    ShlSmall(range, 8 * n);
    ShlSmall(offset, 8 * n);
    RefillRange(range, g, e, n);
    RefillOffset(s, offset, loaded, g, e, n);
    assert 64 - 8 * n == 8 * (8 - n);
  }

  lemma ShlSmall(x: nat, i: nat)
    requires x * Pow2(i) < WORD
    ensures Shl(x, i) == x * Pow2(i)
  {
  }

  lemma RefillRange(range: nat, g: Engine, e: nat, n: nat)
    requires range == g.R * Pow2(e)
    ensures range * Pow2(8 * n) == g.R * Pow2(e + 8 * n)
  {
    Rescale(g.R, e, 8 * n);
  }

  lemma RefillOffset(s: seq<byte>, offset: nat, loaded: nat, g: Engine, e: nat, n: nat)
    requires offset == g.O * Pow2(e) + ReadBits(s, g.pos, e) && g.pos + e == 8 * loaded
    ensures offset * Pow2(8 * n) + ReadBytes(s, loaded, n) ==
            g.O * Pow2(e + 8 * n) + ReadBits(s, g.pos, e + 8 * n)
  {
    hide Pow2, ReadBits, ReadBytes;
    BytesAreBits(s, loaded, n);
    ReadBitsConcat(s, g.pos, e, 8 * n);
    Rescale(g.O, e, 8 * n);
    Spread2(g.O * Pow2(e), ReadBits(s, g.pos, e), Pow2(8 * n));
  }

  lemma Spread2(a: nat, b: nat, w: nat)
    ensures (a + b) * w == a * w + b * w
  {
  }

  // The shift of get_ae, and what it makes of the range.
  lemma Leading1(range: nat, r: nat, e: nat, w: nat)
    requires range == r * Pow2(e) < WORD && 256 <= r < 512 && w == 64
    ensures e <= w - 9 && range < Pow2(w) && Clz(range, w) == w - 9 - e
    ensures Shr(Shl(range, w - 9 - e), w - 3) == r / 64
  {
    hide Pow2, Clz;
    Pow2Word(w);
    LeadingBound(r, e, w, 8);
    LeadingSpan(range, r, e, 8);
    ClzOf(range, w, w - 9 - e);
    WordSplit(w - 9, 9);
    Rescale(r, e, w - 9 - e);
    assert e + (w - 9 - e) == w - 9;
    TopBits(r, w - 9, 9);
  }

  lemma LeadingBound(r: nat, e: nat, w: nat, c: nat)
    requires r * Pow2(e) < WORD && 256 <= r && w == 64 && c == 8
    ensures e <= w - 9
  {
    if e > w - 9 {
      LeadingMore(r, e, w, c);
    }
  }

  lemma LeadingMore(r: nat, e: nat, w: nat, c: nat)
    requires 256 <= r && w == 64 && c == 8 && e >= w - c
    ensures r * Pow2(e) >= WORD
  {
    hide Pow2;
    Pow2Add(w - c, e - (w - c));
    WordSplit(w - c, c);
    Pow2Byte(c);
    AtLeast(r, Pow2(w - c), Pow2(e - (w - c)));
  }

  lemma AtLeast(r: nat, p: nat, q: nat)
    requires 256 <= r && q >= 1
    ensures r * (p * q) >= 256 * p
  {
    assert p * (q - 1) >= 0;
    assert p * q >= p;
    assert (r - 256) * (p * q) >= 0;
  }

  lemma LeadingSpan(range: nat, r: nat, e: nat, c: nat)
    requires range == r * Pow2(e) && 256 <= r < 512 && c == 8
    ensures Pow2(c + e) <= range < Pow2(c + e + 1)
  {
    Pow2Byte(c);
    Pow2Add(c, e);
    Pow2Step(c + e);
    var p := Pow2(e);
    assert 256 * p <= r * p;
    MulLess(r, 512, p);
  }

  // r << k >> k + 6, with k + c = 64.
  lemma TopBits(r: nat, k: nat, c: nat)
    requires r < 512 && c == 9 && k + c == 64
    ensures Shr(Word(r * Pow2(k)), k + 6) == r / 64
  {
    var p := Pow2(k);
    WordSplit(k, c);
    Pow2Byte(c - 1);
    Pow2Step(c - 1);
    MulLess(r, 512, p);
    Pow2Add(k, 6);
    assert Pow2(6) == 64;
    TopDigits(r, p);
  }

  lemma TopDigits(r: nat, p: nat)
    requires p > 0
    ensures r * p / (p * 64) == r / 64
  {
    var a, b := r / 64, r % 64;
    assert r * p == a * (p * 64) + b * p;
    MulLess(b, 64, p);
    Digits(r * p, a, b * p, p * 64);
  }

  function Ceil8(q: nat): nat {
    (q + 7) / 8 * 8
  }

  /** Initialization on the first byte boundary (9.3.1.2). */
  function StartEngine(s: seq<byte>, q: nat): Engine {
    Engine(510, ReadBits(s, Ceil8(q), 9), Ceil8(q) + 9)
  }

  // What get_ae computes before it renormalizes: the table index, and the LPS range at scale.
  lemma AeIndex(range: nat, g: Engine, e: nat, c: Ctx, w: nat)
    requires ValidEngine(g) && ValidCtx(c) && w == 64
    requires range == g.R * Pow2(e) < WORD
    ensures e <= 55 && range < Pow2(w) && Clz(range, w) == 55 - e
    ensures Code(c) / 4 * 4 + Shr(Shl(range, 55 - e), w - 3) - 4 == 4 * c.pStateIdx + g.R / 64 % 4
  {
    hide Pow2, Clz, Shl, Shr;
    Leading1(range, g.R, e, w);
    assert w - 9 - e == 55 - e;
    IndexOf(c.pStateIdx, c.valMPS, g.R / 64);
  }

  lemma IndexOf(p: nat, m: nat, t: nat)
    requires m <= 1 && 4 <= t < 8
    ensures (4 * p + m) / 4 * 4 + t - 4 == 4 * p + t % 4
  {
  }

  lemma AeRange(range: nat, r: nat, lps: nat, e: nat)
    requires range == r * Pow2(e) < WORD && lps < r
    ensures Shl(lps, e) == lps * Pow2(e) < range
  {
    hide Pow2;
    MulLess(lps, r, Pow2(e));
  }

  /** The choice of get_ae is that of DecodeDecision, at scale. */
  lemma AeStep(s: seq<byte>, range: nat, offset: nat, loaded: nat, g: Engine, e: nat, c: Ctx)
    requires Rep(s, range, offset, loaded, g, e) && ValidEngine(g) && ValidCtx(c) && range < WORD
    ensures var l := RangeLps(g, c) * Pow2(e);
            && l < range
            && (offset >= range - l <==> g.O >= g.R - RangeLps(g, c))
            && (offset >= range - l ==> Rep(s, l, offset - (range - l), loaded, AfterDecision(g, c), e))
            && (offset < range - l ==> Rep(s, range - l, offset, loaded, AfterDecision(g, c), e))
  {
    hide ReadBits, Pow2, RangeTabLPS;
    var lps, p := RangeLps(g, c), Pow2(e);
    Difference(g.R, lps, p);
    MulLess(lps, g.R, p);
    RepOrder(s, range, offset, loaded, g, e, g.R - lps);
    if g.O >= g.R - lps {
      RepTake(s, range, offset, loaded, g, e, g.R - lps, lps);
    } else {
      RepTake(s, range, offset, loaded, g, e, 0, g.R - lps);
    }
  }

  lemma Parity(c: Ctx)
    requires ValidCtx(c)
    ensures Code(c) % 2 == c.valMPS && (255 - Code(c)) % 2 == 1 - c.valMPS
  {
    var p, m := c.pStateIdx, c.valMPS;
    assert 255 - Code(c) == 2 * (127 - 2 * p) + (1 - m);
  }

  // A range below 256 (or 512) leaves room for seven (or six) more bytes.
  lemma Room(range: nat, n: nat, w: nat)
    requires (n == 7 && range < 256) || (n == 6 && range < 0x1_0000)
    requires w == 64
    ensures range * Pow2(8 * n) < WORD
  {
    hide Pow2;
    WordSplit(8 * n, w - 8 * n);
    Pow2Byte(8);
    Pow2Add(8, 8);
    MulLess(range, Pow2(w - 8 * n), Pow2(8 * n));
  }

  lemma RoomBelow(range: nat, n: nat)
    requires range > 0 && (n == 7 || n == 6)
    ensures range * Pow2(8 * n) >= 512
  {
    hide Pow2;
    Pow2Add(9, 8 * n - 9);
    Pow2Byte(8);
    Pow2Step(8);
    assert 9 + (8 * n - 9) == 8 * n;
    AtLeastOnce(range, 512, Pow2(8 * n - 9));
  }

  lemma AtLeastOnce(r: nat, p: nat, q: nat)
    requires r >= 1 && q >= 1
    ensures r * (p * q) >= p
  {
    assert p * (q - 1) >= 0;
    assert (r - 1) * (p * q) >= 0;
  }

  /** Stepping CPB back by one payload byte. */
  lemma Rewind(mem: seq<byte>, end0: nat, end: nat, p: nat, s: seq<byte>, place: nat)
    requires Memory(mem, end0) && Placed(mem, end0, end, p, s, place) && place > 0
    ensures p >= 17
    ensures Placed(mem, end0, end, if EscapeBefore(mem, end, p) then p - 2 else p - 1, s, place - 1)
  {
    hide RestAt, Payload, Position, Points, StopAt;
    RewindPosition(mem, end, p, place);
    assert p >= 17;
  }

  /** Stepping back by payload bytes is exact if no place was passed over before, or only zeros are left. */
  lemma RewoundExact(mem: seq<byte>, end0: nat, end: nat, p: nat, s: seq<byte>, loaded: nat, place: nat)
    requires Placed(mem, end0, end, p, s, place) && loaded <= place && (Tidy(mem, end0) ==> loaded == place)
    ensures Points(mem, end, p, s, place)
    ensures Reached(mem, end0, end, p, s, loaded, place) <==> Exact(s, loaded, place)
  {
    hide RestAt, Position, NoStop, Exact;
    PlacedPoints(mem, end0, end, p, s, place);
    ExactMeans(s, loaded, place);
    if Exact(s, loaded, place) {
      forall k: nat
        ensures RestAt(mem, end, p, k) == From(s, loaded, k)
      {
        assert From(s, place, k) == From(s, loaded, k);
      }
    } else {
      var k: nat :| From(s, place, k) != From(s, loaded, k);
      assert RestAt(mem, end, p, k) != From(s, loaded, k);
    }
  }

  // The sentinel tells how many bits are cached beyond 64.
  lemma SentinelAt(s: seq<byte>, q: nat, n: nat, msb: nat, lsb: nat, w: nat)
    requires Cached(s, q, n, msb, lsb) && 64 <= n && w == 64
    ensures lsb > 0 && Ctz(lsb) == 127 - n
  {
    hide ReadBits, Pow2, Ctz;
    var odd, d := 2 * ReadBits(s, q, n) + 1, 127 - n;
    WordSplit(w - d, d);
    Pow2Step(w - d - 1);
    var half := Pow2(w - d - 1);
    assert Pow2(w - d) == 2 * half;
    OddDigit(odd, half, Pow2(d), msb, lsb);
    CtzOfOdd(odd % (2 * half), d);
  }

  lemma OddDigit(odd: nat, half: nat, p: nat, msb: nat, lsb: nat)
    requires half > 0 && p > 0 && 2 * half * p == WORD && lsb < WORD && msb * WORD + lsb == odd * p && odd % 2 == 1
    ensures odd % (2 * half) % 2 == 1 && lsb == odd % (2 * half) * p
  {
    var m := 2 * half;
    OddRemainder(odd, half);
    ShiftedDigits(odd, m, p);
    Digits(odd * p, odd / m, odd % m * p, WORD);
    Digits(msb * WORD + lsb, msb, lsb, WORD);
  }

  lemma OddRemainder(odd: nat, half: nat)
    requires half > 0 && odd % 2 == 1
    ensures odd % (2 * half) % 2 == 1
  {
    var m := 2 * half;
    assert odd == odd / m * m + odd % m;
    assert odd / m * m == 2 * (odd / m * half);
  }

  /** The upper word, shift bits further on, holds 64 bits. */
  lemma StartOffset(s: seq<byte>, q: nat, n: nat, msb: nat, lsb: nat, shift: nat, w: nat)
    requires Cached(s, q, n, msb, lsb) && w == 64 && n >= w + shift && shift < 8
    ensures Shld(lsb, msb, shift) == ReadBits(s, q + shift, w)
  {
    hide ReadBits, Run, Shld, Shl, Shr;
    CacheRead(s, q, n, msb, lsb, shift);
    CacheHigh(s, q + shift, n - shift, Shld(lsb, msb, shift), Shl(lsb, shift), w);
  }

  /** Figure 9-30: the engine starts on nine bits, of which the values from 510 on are forbidden. */
  lemma StartRep(s: seq<byte>, q: nat, loaded: nat, offset: nat, w: nat)
    requires w == 64 && offset == ReadBits(s, q, w) && q + w == 8 * loaded
    ensures Shl(510, w - 9) == 510 * Pow2(w - 9)
    ensures ReadBits(s, q, w - 55) < 510 ==>
            offset < Shl(510, w - 9)
            && Rep(s, Shl(510, w - 9), offset, loaded, Engine(510, ReadBits(s, q, w - 55), q + (w - 55)), w - 9)
    ensures ReadBits(s, q, w - 55) >= 510 ==> offset >= Shl(510, w - 9)
  {
    hide ReadBits, Pow2;
    var k, c := w - 9, w - 55;
    Pow2Byte(8);
    Pow2Step(8);
    WordSplit(k, c);
    MulLess(510, 512, Pow2(k));
    ReadBitsConcat(s, q, c, k);
    assert c + k == w;
    Compare(ReadBits(s, q, c), ReadBits(s, q + c, k), 510, Pow2(k));
  }

  lemma StartEngineRep(s: seq<byte>, q: nat, shift: nat, loaded: nat, offset: nat, w: nat)
    requires w == 64 && shift < 8 && q + shift + w == 8 * loaded && offset == ReadBits(s, q + shift, w)
    ensures var g := StartEngine(s, q);
            && Shl(510, 55) < WORD
            && (g.O < 510 ==> ValidEngine(g) && offset < Shl(510, 55) && Rep(s, Shl(510, 55), offset, loaded, g, 55))
            && (g.O >= 510 ==> offset >= Shl(510, 55))
  {
    hide ReadBits, Pow2, Rep;
    assert q + shift == Ceil8(q);
    StartRep(s, q + shift, loaded, offset, w);
    assert w - 9 == 55 && w - 55 == 9;
  }

  /** A payload that starts with nine ones: the offset begins above the range. */
  lemma NineOnes(w: nat)
    requires w == 64
    ensures StartEngine([255, 255], 0) == Engine(510, 511, 9)
    ensures ReadBits([255, 255], 0, w) >= Shl(510, w - 9)
  {
    hide ReadBits;
    var s: seq<byte> := [255, 255];
    AppendByte(s, 0, 0, 0, 8);
    ReadBitsStep(s, 0, 8);
    BitInByte(s, 1, 0);
    assert ReadBits(s, 0, 0) == 0 by { ReadBitsInByte(s, 0, 0); }
    assert BitAt(s, 8) == 1;
    StartRep(s, 0, 8, ReadBits(s, 0, w), w);
  }

  lemma Filled127(s: seq<byte>, q: nat, n: nat, msb: nat, lsb: nat)
    requires Cached(s, q, n, msb, lsb)
    ensures n <= 127
  {
  }

  /** The m lower bits of offset go back to the cache, behind them the sentinel. */
  lemma HandBack(s: seq<byte>, range: nat, offset: nat, loaded: nat, g: Engine, e: nat, m: nat, w: nat)
    requires Rep(s, range, offset, loaded, g, e) && m <= e && m < w && w == 64
    ensures Drained(s, g.pos + (e - m), m, Shl(Word(offset * 2 + 1), w - 1 - m))
  {
    hide ReadBits, Pow2, Word, Rep;
    var k := e - m;
    var h, low, p, c := g.O * Pow2(k) + ReadBits(s, g.pos, k), ReadBits(s, g.pos + k, m), Pow2(m), Pow2(w - 1 - m);
    OffsetSplits(s, range, offset, loaded, g, e, k, m);
    HandBackScale(m, w);
    HandBackWord(h, low, p, c, offset);
    assert Shl(Word(offset * 2 + 1), w - 1 - m) == (2 * low + 1) * c;
  }

  // The m lower bits of offset, and the others.
  lemma OffsetSplits(s: seq<byte>, range: nat, offset: nat, loaded: nat, g: Engine, e: nat, k: nat, m: nat)
    requires Rep(s, range, offset, loaded, g, e) && e == k + m
    ensures offset == (g.O * Pow2(k) + ReadBits(s, g.pos, k)) * Pow2(m) + ReadBits(s, g.pos + k, m)
  {
    hide ReadBits, Pow2;
    ReadBitsConcat(s, g.pos, k, m);
    Rescale(g.O, k, m);
    Distribute(g.O * Pow2(k), ReadBits(s, g.pos, k), Pow2(m));
  }

  lemma Distribute(a: int, b: int, p: int)
    ensures (a + b) * p == a * p + b * p
  {
  }

  lemma HandBackScale(m: nat, w: nat)
    requires m < w && w == 64
    ensures 2 * Pow2(m) * Pow2(w - 1 - m) == WORD
  {
    hide Pow2;
    WordSplit(m + 1, w - 1 - m);
    Pow2Step(m);
  }

  lemma WholeBytes(s: seq<byte>, range: nat, offset: nat, loaded: nat, g: Engine, e: nat, m: nat)
    requires Rep(s, range, offset, loaded, g, e) && m == e / 8 * 8
    ensures Ceil8(g.pos) == g.pos + (e - m) == 8 * loaded - m
  {
    hide Pow2, ReadBits;
    assert g.pos + e == 8 * loaded;
    var k := e - m;
    assert (g.pos + 7) / 8 * 8 == g.pos + k by {
      assert g.pos + k == 8 * (loaded - e / 8) && k < 8;
    }
  }

  lemma HandBackWord(h: nat, low: nat, p: nat, c: nat, offset: nat)
    requires low < p && c > 0 && 2 * p * c == WORD && offset == h * p + low
    ensures Word(Word(offset * 2 + 1) * c) == (2 * low + 1) * c
  {
    ModMul(offset * 2 + 1, WORD, c);
    MulLess(2 * low + 1, 2 * p, c);
    assert h * (2 * p * c) == 2 * (h * p) * c;
    Digits((offset * 2 + 1) * c, h, (2 * low + 1) * c, WORD);
  }

  /** The choice of get_bypass is that of DecodeBypass, at scale. */
  lemma BypassStep(s: seq<byte>, range: nat, offset: nat, loaded: nat, g: Engine, e: nat)
    requires Rep(s, range, offset, loaded, g, e) && ValidEngine(g) && 512 <= range
    ensures e > 0
    ensures var d := DecodeBypass(s, g);
            && (offset >= range / 2 <==> d.0 == 1)
            && Rep(s, range / 2, if d.0 == 1 then offset - range / 2 else offset, loaded, d.1, e - 1)
  {
    hide ReadBits, Pow2, BitAt;
    Pow2Zero();
    var d := Doubled(s, g);
    RepDouble(s, range, offset, loaded, g, e - 1);
    DoubleOffset(g.R, 0, Pow2(e - 1));
    assert range / 2 == g.R * Pow2(e - 1);
    assert 0 * Pow2(e - 1) == 0;
    RepOrder(s, range, offset, loaded, d, e - 1, g.R);
    if d.O >= g.R {
      RepTake(s, range, offset, loaded, d, e - 1, g.R, g.R);
    } else {
      RepTake(s, range, offset, loaded, d, e - 1, 0, g.R);
    }
  }

  lemma TerminateStep(s: seq<byte>, range: nat, offset: nat, loaded: nat, g: Engine, e: nat, w: nat)
    requires Rep(s, range, offset, loaded, g, e) && ValidEngine(g) && range < WORD && w == 64
    ensures e <= 55 && range < Pow2(w) && Clz(range, w) == 55 - e && 0 < Shl(2, e) < range
    ensures offset < range - Shl(2, e) <==> g.O < g.R - 2
    ensures g.O < g.R - 2 ==> Rep(s, range - Shl(2, e), offset, loaded, Engine(g.R - 2, g.O, g.pos), e)
  {
    hide ReadBits, Pow2, Clz;
    Leading1(range, g.R, e, w);
    AeRange(range, g.R, 2, e);
    Difference(g.R, 2, Pow2(e));
    RepOrder(s, range, offset, loaded, g, e, g.R - 2);
    if g.O < g.R - 2 {
      RepTake(s, range, offset, loaded, g, e, 0, g.R - 2);
    }
  }

  /** The loop of cabac_start, giving back the bytes cached beyond 64 bits; rest of extra that is left. */
  method Reclaim(g: GetBits, extra: nat) returns (rest: nat)
    requires g.ValidSource() && extra <= 8 * g.loaded
    modifies g`CPB, g`loaded, g`place
    ensures rest < 8 && rest <= extra && 8 * g.loaded - rest == 8 * old(g.loaded) - extra
    ensures g.ValidPlace() && g.place - g.loaded == old(g.place) - old(g.loaded)
    ensures Points(g.mem, g.end, g.CPB, g.Source(), g.place)
    ensures g.ValidSource() <==> Exact(g.Source(), g.loaded, g.place)
  {
    hide Points, Position, NoStop, Payload, Exact, Tidy;
    rest := extra;
    while rest >= 8
      invariant g.ValidPlace() && g.place - g.loaded == old(g.place) - old(g.loaded)
      invariant rest <= extra && 8 * g.loaded - rest == 8 * old(g.loaded) - extra
    {
      Rewind(g.mem, g.end0, g.end, g.CPB, g.Source(), g.place);
      g.CPB := if EscapeBefore(g.mem, g.end, g.CPB) then g.CPB - 2 else g.CPB - 1;
      g.loaded, g.place := g.loaded - 1, g.place - 1;
      rest := rest - 8;
    }
    RewoundExact(g.mem, g.end0, g.end, g.CPB, g.Source(), g.loaded, g.place);
  }

  /**
   * cabac_start: the cached bytes go back to the reader, but for the 8 of the offset. The reader goes on
   * behind these exactly if no 00 00 03 behind a stop took it too far, or the payload ends in them.
   */
  method CabacStart(g: GetBits) returns (range: nat, offset: nat)
    requires g.Valid()
    modifies g`CPB, g`loaded, g`place
    ensures 8 * g.loaded == Ceil8(old(g.pos)) + 64 && range < WORD
    ensures g.ValidPlace() && g.place - g.loaded == old(g.place) - old(g.loaded)
    ensures Points(g.mem, g.end, g.CPB, g.Source(), g.place)
    ensures g.ValidSource() <==> Exact(g.Source(), g.loaded, g.place)
    ensures Tidy(g.mem, g.end0) ==> g.ValidSource()
    ensures var start := StartEngine(g.Source(), old(g.pos));
            if start.O < 510 then ValidEngine(start) && Rep(g.Source(), range, offset, g.loaded, start, 55)
            else range == offset
  {
    hide Pow2, ReadBits, Shl, Shld, Ctz, Cached, Points, Placed, Exact, Tidy, StartEngine, Payload, Rep;
    ghost var s, q, n := g.Source(), g.pos, 8 * g.loaded - g.pos;
    CacheLow(s, q, n, g.msbCache, g.lsbCache);
    Filled127(s, q, n, g.msbCache, g.lsbCache);
    SentinelAt(s, q, n, g.msbCache, g.lsbCache, 64);
    var shift := Reclaim(g, 63 - Ctz(g.lsbCache));
    StartOffset(s, q, n, g.msbCache, g.lsbCache, shift, 64);
    offset := Shld(g.lsbCache, g.msbCache, shift);
    StartEngineRep(s, q, shift, g.loaded, offset, 64);
    range := Shl(510, 55);
    offset := if offset < range then offset else range;
  }

  // A NAL unit with a slice header in bytes 1 and 2, in which 00 00 00 03 follows the first twelve payload bytes.
  function Embedded(): (m: seq<byte>)
    ensures |m| == 48 && m[14] == 0 && m[15] == 1 && (forall t | 15 <= t < 28 :: m[t] != 0)
    ensures m[17] == 154 && m[18] == 35 && m[27] == 7
  {
    Zeros(15) + [1, 65, 154, 35, 9, 9, 9, 9, 9, 9, 9, 9, 7, 0, 0, 0, 3] + seq(16, i => 9)
  }

  lemma FirstLanes(m: seq<byte>, v: seq<byte>)
    requires m == Embedded() && |v| == 16 && v == m[14..30]
    ensures First(EscapeLanes(v)) >= 8 && forall t | 0 <= t < 8 :: !Escapes(v)[t] && !Stopped(v, t)
  {
    hide First, StopLane, Embedded;
    forall t | 0 <= t < 8
      ensures !EscapeLanes(v)[t] && !Stopped(v, t) && !Escaped(v, t)
    {
      assert v[t + 1] == m[15 + t] != 0;
    }
  }

  lemma FirstWindow(v: seq<byte>)
    requires |v| == 16
    requires First(EscapeLanes(v)) >= 8 && forall t | 0 <= t < 8 :: !Escapes(v)[t] && !Stopped(v, t)
    ensures StepWindow(Cursor(40, 16, 0), v, 8) == Cursor(40, 24, 8)
  {
    hide Flags, Taken, EscapeLanes, Stopped, Escapes, First;
    NoFlags(Escapes(v), 0, 8);
    NoFlags(Escapes(v), 8, 8);
    TakenIs(Escapes(v), 8, 0, 8);
  }

  lemma SecondLanes(m: seq<byte>, v: seq<byte>)
    requires m == Embedded() && |v| == 16 && v == m[22..38]
    ensures First(EscapeLanes(v)) < 8 && StopLane(v) == 6
    ensures forall t | 0 <= t < 9 :: Escapes(v)[t] <==> t == 7
  {
    hide First, StopLane;
    assert forall t | 0 <= t < 16 :: v[t] == m[22 + t];
    assert forall t | 0 <= t < 6 :: !Stopped(v, t);
    assert Stopped(v, 6) && EscapeLanes(v)[6];
    assert forall t | 0 <= t < 9 :: Escaped(v, t) <==> t == 7;
  }

  lemma SecondWindow(v: seq<byte>)
    requires |v| == 16 && First(EscapeLanes(v)) < 8 && StopLane(v) == 6
    requires forall t | 0 <= t < 9 :: Escapes(v)[t] <==> t == 7
    ensures StepWindow(Cursor(40, 24, 8), v, 8) == Cursor(28, 33, 17)
  {
    hide Taken, EscapeLanes, Escapes, First, StopLane;
    var esc := Escapes(v);
    NoFlags(esc, 0, 6);
    NoFlags(esc, 6, 7);
    assert Flags(esc, 6, 8) == 1;
    assert Flags(esc, 6, 9) == 1;
    FlagsSplit(esc, 0, 6, 9);
    TakenIs(esc, 8, 0, 9);
  }

  /** A NAL unit of which the reader loses a byte: CPB is one too far when cabac_start gives bytes back. */
  lemma EmbeddedLoses()
    ensures var m := Embedded();
            && Memory(m, 40)
            && Step(m, Cursor(40, 16, 0), 8) == Cursor(40, 24, 8)
            && Step(m, Cursor(40, 24, 8), 8) == Cursor(28, 33, 17)
            && ByteAt(Payload(m[16..40], 0), 11) == 7
            && !Exact(Payload(m[16..40], 0), 11, 12)
  {
    hide StepWindow, Payload, RestAt, Rest, EscapeLanes, Escapes, First, StopLane, Stopped;
    var m := Embedded();
    FirstLanes(m, m[14..30]);
    FirstWindow(m[14..30]);
    SecondLanes(m, m[22..38]);
    SecondWindow(m[22..38]);
    EmbeddedByte(11);
    assert From(Payload(m[16..40], 0), 11, 0) == 7;
  }

  // The first bytes of its payload.
  lemma EmbeddedByte(k: nat)
    requires k < 12
    ensures ByteAt(Payload(Embedded()[16..40], 0), k) == Embedded()[16 + k]
  {
    hide Payload, RestAt, Embedded;
    var m := Embedded();
    var s := Payload(m[16..40], 0);
    assert RestAt(m, 40, 16, k) == ByteAt(s, k) by {
      Start(m, 40);
      assert From(s, 0, k) == RestAt(m, 40, 16, k);
    }
    Leads(m, 16, k);
    RestAtByte(m, 40, 16 + k, 0);
  }

  lemma {:induction false} Leads(m: seq<byte>, p: nat, k: nat)
    requires m == Embedded() && 16 <= p && p + k < 28
    ensures RestAt(m, 40, p, k) == RestAt(m, 40, p + k, 0)
    decreases k
  {
    hide RestAt, Embedded;
    if k == 0 {
    } else {
      RestAtByte(m, 40, p, k);
      Leads(m, p + 1, k - 1);
    }
  }

  // The lengths of the codes of its slice header.
  lemma EmbeddedCodes(s: seq<byte>)
    requires ByteAt(s, 1) == 154 && ByteAt(s, 2) == 35
    ensures CodeBits(s, 8, 32) == 1 && CodeBits(s, 9, 32) == 5 && CodeBits(s, 14, 32) == 1
    ensures CodeBits(s, 22, 32) == 1 && CodeBits(s, 23, 32) == 1
  {
    hide BitAt, ByteAt;
    BitInByte(s, 1, 0);
    BitInByte(s, 1, 1);
    BitInByte(s, 1, 2);
    BitInByte(s, 1, 3);
    BitInByte(s, 1, 6);
    BitInByte(s, 2, 6);
    BitInByte(s, 2, 7);
    assert Pow2(0) == 1 && Pow2(1) == 2 && Pow2(4) == 16 && Pow2(5) == 32 && Pow2(6) == 64 && Pow2(7) == 128;
    assert BitAt(s, 8) == 1 && BitAt(s, 14) == 1 && BitAt(s, 22) == 1 && BitAt(s, 23) == 1;
    assert BitAt(s, 9) == 0 && BitAt(s, 10) == 0 && BitAt(s, 11) == 1;
    assert LeadingZeros(s, 11, 30) == 0 && LeadingZeros(s, 10, 31) == 1;
  }

  /**
   * The run on that NAL unit, behind the header of a P slice: the reader goes on behind byte 12, and byte 11,
   * which is 7, is never read.
   */
  method LoseByte() returns (g: GetBits)
    ensures fresh(g) && !g.ValidSource() && g.ValidPlace()
    ensures g.loaded == 11 && g.place == 12 && ByteAt(g.Source(), 11) == 7
    ensures Points(g.mem, g.end, g.CPB, g.Source(), 12)
  {
    hide Embedded, Step, Exact, Points, Placed, Payload, CodeBits, CodeValue, Cached, ReadBits, BitAt, Signed;
    EmbeddedLoses();
    EmbeddedByte(1);
    EmbeddedByte(2);
    EmbeddedCodes(Payload(Embedded()[16..40], 0));
    g := new GetBits(Embedded(), 40);
    g.SkipHeader();
    var firstMb := g.GetUe16(98);
    var sliceType := g.GetUe16(9);
    var ppsId := g.GetUe16(255);
    var frameNum := g.GetUv(4);
    var numRefIdxOverride := g.GetU1();
    var listModification := g.GetU1();
    var adaptiveMarking := g.GetU1();
    var cabacInitIdc := g.GetUe16(2);
    var sliceQpDelta := g.GetSe16(-26, 25);
    var range, offset := CabacStart(g);
  }

  class Context {
    const gb: GetBits
    const cabac: array<nat>
    var range: nat
    var offset: nat
    ghost var engine: Engine
    ghost var ctxs: seq<Ctx>
    ghost var e: nat

    constructor (g: GetBits, states: array<nat>, ghost c: seq<Ctx>)
      requires g.Valid()
      requires |c| == states.Length && forall i | 0 <= i < |c| :: ValidCtx(c[i]) && states[i] == Code(c[i])
      modifies g
      ensures gb == g && cabac == states && ctxs == c
      ensures engine == StartEngine(gb.Source(), old(g.pos))
      ensures 8 * gb.loaded == Ceil8(old(g.pos)) + 64 && gb.place - gb.loaded == old(g.place) - old(g.loaded)
      ensures if engine.O < 510 then Valid() <==> Exact(gb.Source(), gb.loaded, gb.place) else range == offset
    {
      hide Rep, StartEngine, Reached, ReadBits, Payload, Cached, Pow2, Code, ValidCtx, Exact, Points, Placed;
      gb, cabac, ctxs := g, states, c;
      range, offset, e := 0, 0, 55;
      engine := StartEngine(g.Source(), g.pos);
      new;
      range, offset := CabacStart(g);
    }

    ghost predicate Valid()
      reads this, gb, cabac
    {
      && gb.ValidSource()
      && Coded()
      && ValidEngine(engine) && range < WORD
      && Rep(gb.Source(), range, offset, gb.loaded, engine, e)
    }

    ghost predicate Coded()
      reads this, cabac
    {
      |ctxs| == cabac.Length && forall i | 0 <= i < |ctxs| :: ValidCtx(ctxs[i]) && cabac[i] == Code(ctxs[i])
    }

    /** refill_offset, with the shift of the range beside it. */
    method Fetch(n: nat)
      requires gb.ValidSource() && (n == 6 || n == 7) && 0 < range < (if n == 7 then 256 else 0x1_0000)
      requires Rep(gb.Source(), range, offset, gb.loaded, engine, e)
      modifies this`range, this`offset, this`e, gb
      ensures gb.ValidSource() && 512 <= range < WORD
      ensures Rep(gb.Source(), range, offset, gb.loaded, engine, e) && e == old(e) + 8 * n
    {
      hide Rep, Pow2, ReadBytes, Shr, Shl, Shld, Reached, Placed, Points, Payload, Step;
      Room(range, n, 64);
      RoomBelow(range, n);
      ghost var l := gb.loaded;
      var bytes := gb.GetBytes(n);
      RepRefill(gb.Source(), range, offset, l, engine, e, n, bytes);
      range, offset, e := Shl(range, 8 * n), Shld(bytes, offset, 8 * n), e + 8 * n;
    }

    // The engine may now be thought of as renormalized.
    ghost method Renormalize()
      requires gb.ValidSource() && Coded() && 256 <= range < WORD && 0 < engine.R < 512
      requires Rep(gb.Source(), range, offset, gb.loaded, engine, e)
      modifies this`engine, this`e
      ensures Valid() && engine == RenormD(gb.Source(), old(engine)) && Coded()
    {
      var f := RepRenorm(gb.Source(), range, offset, gb.loaded, engine, e);
      e := f;
      engine := RenormD(gb.Source(), engine);
    }

    // The LPS range at scale, and the range left for the MPS.
    method LpsRange(state: nat, ghost c: Ctx) returns (lps: nat)
      requires ValidCtx(c) && state == Code(c) && ValidEngine(engine)
      requires range == engine.R * Pow2(e) < WORD
      ensures lps == RangeLps(engine, c) * Pow2(e) < range
    {
      hide Pow2, Clz, Shl, Shr, RangeTabLPS;
      AeIndex(range, engine, e, c, 64);
      var shift := Clz(range, 64);
      var idx := state / 4 * 4 + Shr(Shl(range, shift), 61) - 4;
      Ranges(c.pStateIdx, engine.R / 64 % 4);
      assert idx == 4 * c.pStateIdx + engine.R / 64 % 4;
      assert RangeTabLPS(idx) == RangeLps(engine, c);
      assert RangeLps(engine, c) < engine.R;
      AeRange(range, engine.R, RangeLps(engine, c), e);
      lps := Shl(RangeTabLPS(idx), 55 - shift);
    }

    /** get_ae: DecodeDecision on context ctxIdx. */
    method GetAe(ctxIdx: nat) returns (bin: nat)
      requires Valid() && ctxIdx < cabac.Length
      modifies this, cabac, gb
      ensures Valid()
      ensures var d := DecodeDecision(gb.Source(), old(engine), old(ctxs[ctxIdx]));
              bin == d.bin && engine == d.engine && ctxs == old(ctxs)[ctxIdx := d.ctx]
    {
      hide Pow2, RenormD, RangeTabLPS, TransIdx, TransIdxLPS, Reached;
      ghost var c, g := ctxs[ctxIdx], engine;
      var state := cabac[ctxIdx];
      var lps := LpsRange(state, c);
      AeStep(gb.Source(), range, offset, gb.loaded, g, e, c);
      Transitions(c);
      ghost var d := DecodeDecision(gb.Source(), g, c);
      range := range - lps;
      if offset >= range {
        state := 255 - state;
        offset := offset - range;
        range := lps;
      }
      Parity(c);
      assert state % 2 == d.bin;
      cabac[ctxIdx] := TransIdx(state);
      engine := AfterDecision(g, c);
      ctxs := ctxs[ctxIdx := d.ctx];
      if range < 256 {
        Fetch(7);
      }
      Renormalize();
      bin := state % 2;
    }

    /** get_bypass: DecodeBypass. */
    method GetBypass() returns (bin: nat)
      requires Valid()
      modifies this, gb
      ensures Valid() && ctxs == old(ctxs)
      ensures (bin, engine) == DecodeBypass(gb.Source(), old(engine))
    {
      hide Pow2, ReadBits, Reached, Rep;
      ghost var g := engine;
      if range < 512 {
        WideRange();
        Fetch(6);
      }
      BypassStep(gb.Source(), range, offset, gb.loaded, g, e);
      range := range / 2;
      bin := if offset >= range then 1 else 0;
      offset := if bin == 1 then offset - range else offset;
      engine, e := DecodeBypass(gb.Source(), g).1, e - 1;
    }

    lemma WideRange()
      requires Valid()
      ensures range > 0
    {
      RepOrder(gb.Source(), range, offset, gb.loaded, engine, e, 0);
    }

    /** cabac_terminate: DecodeTerminate; after a bin 1 the reader goes on at the next byte boundary. */
    method Terminate() returns (bin: nat)
      requires Valid()
      modifies this, gb
      ensures (bin, engine) == DecodeTerminate(gb.Source(), old(engine)) && ctxs == old(ctxs)
      ensures bin == 0 ==> Valid()
      ensures bin == 1 ==> gb.Valid() && gb.pos == Ceil8(engine.pos)
    {
      hide Pow2, ReadBits, Reached, Clz, Shl, Word, RenormD, Rep;
      ghost var s, g := gb.Source(), engine;
      TerminateStep(s, range, offset, gb.loaded, g, e, 64);
      var extra := 55 - Clz(range, 64);
      assert extra == e;
      range := range - Shl(2, extra);
      if offset < range {
        bin := 0;
        engine := Engine(g.R - 2, g.O, g.pos);
        if range < 256 {
          Fetch(7);
        }
        Renormalize();
      } else {
        bin := 1;
        var m := extra / 8 * 8;
        WholeBytes(s, old(range), offset, gb.loaded, g, e, m);
        HandBack(s, old(range), offset, gb.loaded, g, e, m, 64);
        gb.msbCache := Shl(Word(offset * 2 + 1), 63 - m);
        gb.pos := Ceil8(g.pos);
        gb.Refill();
      }
    }

    /**
     * Every parser: one that chooses what to decode from the bins so far, for n bins or up to the first
     * terminating bin 1, sees the bins of the standard.
     */
    method Parse(next: seq<nat> -> Op, n: nat) returns (bins: seq<nat>)
      requires Valid() && InTable(next, cabac.Length)
      modifies this, cabac, gb
      ensures bins == Bins(gb.Source(), old(engine), old(ctxs), next, n, [])
    {
      hide ValidEngine, DecodeDecision, DecodeBypass, Rep, Reached, Pow2, ReadBits, Payload;
      bins := [];
      ghost var s, k := gb.Source(), n;
      while |bins| < n
        invariant Valid() && |bins| + k == n
        invariant Bins(s, old(engine), old(ctxs), next, n, []) == Bins(s, engine, ctxs, next, k, bins)
        decreases n - |bins|
      {
        var bin;
        match next(bins) {
          case Decision(ctxIdx) => bin := GetAe(ctxIdx);
          case Bypass => bin := GetBypass();
          case Terminate =>
            bin := Terminate();
            if bin == 1 {
              bins := bins + [1];
              return;
            }
        }
        bins, k := bins + [bin], k - 1;
      }
    }
  }
}
