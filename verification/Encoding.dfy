/**
 * The arithmetic encoder of clause 9.3.4.2 of H.264, with codILow as the whole number written so far, and why
 * the decoder gets back the bins it encoded.
 */
module Encoding {
  import opened Arithmetic
  import opened Bits
  import opened Cabac

  /** codILow with all bits ever shifted out of it, codIRange, and the number of shifts. */
  datatype Encoder = Encoder(low: nat, R: nat, n: nat)

  predicate ValidEncoder(e: Encoder) {
    256 <= e.R < 512
  }

  // RenormE (Figure 9-8).
  function RenormE(e: Encoder): (r: Encoder)
    requires 0 < e.R < 512
    ensures ValidEncoder(r)
    decreases 512 - e.R
  {
    if e.R >= 256 then e else RenormE(Encoder(2 * e.low, 2 * e.R, e.n + 1))
  }

  // codIRangeLPS.
  function Lps(e: Encoder, c: Ctx): (l: nat)
    requires ValidEncoder(e) && ValidCtx(c)
    ensures 2 <= l <= 240
  {
    Ranges(c.pStateIdx, e.R / 64 % 4);
    RangeTabLPS(4 * c.pStateIdx + e.R / 64 % 4)
  }

  // The lower part of the interval is for the most probable symbol.
  function Chosen(e: Encoder, c: Ctx, bin: nat): (r: Encoder)
    requires ValidEncoder(e) && ValidCtx(c)
    ensures 0 < r.R < 512
  {
    var l := Lps(e, c);
    if bin == c.valMPS then Encoder(e.low, e.R - l, e.n) else Encoder(e.low + e.R - l, l, e.n)
  }

  /** EncodeDecision (Figure 9-7). */
  function EncodeDecision(e: Encoder, c: Ctx, bin: nat): (r: Encoder)
    requires ValidEncoder(e) && ValidCtx(c)
    ensures ValidEncoder(r)
  {
    RenormE(Chosen(e, c, bin))
  }

  function NextCtx(c: Ctx, bin: nat): (d: Ctx)
    requires ValidCtx(c)
    ensures ValidCtx(d)
  {
    Transitions(c);
    if bin == c.valMPS then AfterMps(c) else AfterLps(c)
  }

  /** EncodeBypass (Figure 9-10). */
  function EncodeBypass(e: Encoder, bin: nat): Encoder {
    Encoder(2 * e.low + (if bin == 1 then e.R else 0), e.R, e.n + 1)
  }

  /** EncodeTerminate (Figure 9-11), up to the flush after a bin 1. */
  function EncodeTerminate(e: Encoder, bin: nat): (r: Encoder)
    requires ValidEncoder(e)
    ensures bin != 1 ==> ValidEncoder(r)
  {
    if bin == 1 then Encoder(e.low + e.R - 2, 2, e.n) else RenormE(Encoder(e.low, e.R - 2, e.n))
  }

  // Bins a slice can hold: a terminating bin 1 is the last.
  ghost predicate Codable(next: seq<nat> -> Op, done: seq<nat>, rest: seq<nat>)
    decreases |rest|
  {
    rest != [] ==>
      rest[0] <= 1 && (next(done).Terminate? && rest[0] == 1 ==> |rest| == 1)
      && Codable(next, done + [rest[0]], rest[1..])
  }

  /** The encoder after the bins of rest, of a parser that has seen those of done. */
  ghost function Encode(e: Encoder, ctxs: seq<Ctx>, next: seq<nat> -> Op, done: seq<nat>, rest: seq<nat>): Encoder
    requires ValidEncoder(e) && (forall c | c in ctxs :: ValidCtx(c)) && InTable(next, |ctxs|)
    decreases |rest|
  {
    if rest == [] then e
    else
      match next(done)
      case Decision(i) =>
        Encode(EncodeDecision(e, ctxs[i], rest[0]), ctxs[i := NextCtx(ctxs[i], rest[0])], next,
               done + [rest[0]], rest[1..])
      case Bypass => Encode(EncodeBypass(e, rest[0]), ctxs, next, done + [rest[0]], rest[1..])
      case Terminate =>
        if rest[0] == 1 then EncodeTerminate(e, 1)
        else Encode(EncodeTerminate(e, 0), ctxs, next, done + [rest[0]], rest[1..])
  }

  // The bits of s from p on lie in the interval of the encoder.
  ghost predicate Inside(s: seq<byte>, p: nat, e: Encoder) {
    e.low <= ReadBits(s, p, 9 + e.n) < e.low + e.R
  }

  // The decoder on such bits.
  ghost function EngineOf(s: seq<byte>, p: nat, e: Encoder): Engine
    requires Inside(s, p, e)
  {
    Engine(e.R, ReadBits(s, p, 9 + e.n) - e.low, p + 9 + e.n)
  }

  lemma NextRead(s: seq<byte>, p: nat, n: nat)
    ensures ReadBits(s, p, 9 + (n + 1)) == 2 * ReadBits(s, p, 9 + n) + BitAt(s, p + 9 + n)
  {
    hide ReadBits, BitAt;
    ReadBitsStep(s, p, 9 + n);
    assert 9 + n + 1 == 9 + (n + 1) && p + (9 + n) == p + 9 + n;
  }

  /** Renormalization narrows no interval, and keeps the decoder in step. */
  lemma {:induction false} RenormInside(s: seq<byte>, p: nat, e: Encoder)
    requires 0 < e.R < 512 && Inside(s, p, RenormE(e))
    ensures Inside(s, p, e) && RenormD(s, EngineOf(s, p, e)) == EngineOf(s, p, RenormE(e))
    decreases 512 - e.R
  {
    hide ReadBits, BitAt;
    if e.R < 256 {
      NextRead(s, p, e.n);
      RenormInside(s, p, Encoder(2 * e.low, 2 * e.R, e.n + 1));
      assert Doubled(s, EngineOf(s, p, e)) == EngineOf(s, p, Encoder(2 * e.low, 2 * e.R, e.n + 1));
    }
  }

  lemma DecisionInside(s: seq<byte>, p: nat, e: Encoder, c: Ctx, bin: nat)
    requires ValidEncoder(e) && ValidCtx(c) && bin <= 1 && Inside(s, p, EncodeDecision(e, c, bin))
    ensures Inside(s, p, e)
    ensures DecodeDecision(s, EngineOf(s, p, e), c) ==
            Decoded(bin, EngineOf(s, p, EncodeDecision(e, c, bin)), NextCtx(c, bin))
  {
    hide ReadBits, RenormD, RenormE, RangeTabLPS;
    RenormInside(s, p, Chosen(e, c, bin));
    assert AfterDecision(EngineOf(s, p, e), c) == EngineOf(s, p, Chosen(e, c, bin));
  }

  lemma BypassInside(s: seq<byte>, p: nat, e: Encoder, bin: nat)
    requires ValidEncoder(e) && bin <= 1 && Inside(s, p, EncodeBypass(e, bin))
    ensures Inside(s, p, e) && DecodeBypass(s, EngineOf(s, p, e)) == (bin, EngineOf(s, p, EncodeBypass(e, bin)))
  {
    hide ReadBits, BitAt;
    NextRead(s, p, e.n);
  }

  lemma TerminateInside(s: seq<byte>, p: nat, e: Encoder, bin: nat)
    requires ValidEncoder(e) && bin <= 1 && Inside(s, p, EncodeTerminate(e, bin))
    ensures Inside(s, p, e) && DecodeTerminate(s, EngineOf(s, p, e)).0 == bin
    ensures bin == 0 ==> DecodeTerminate(s, EngineOf(s, p, e)).1 == EngineOf(s, p, EncodeTerminate(e, 0))
  {
    hide ReadBits, RenormD, RenormE;
    if bin == 0 {
      RenormInside(s, p, Encoder(e.low, e.R - 2, e.n));
    }
  }

  /** The decoder of the standard gets the bins back from any bits in the interval of the encoder. */
  lemma {:induction false} DecodesEncoded(s: seq<byte>, p: nat, e: Encoder, ctxs: seq<Ctx>, next: seq<nat> -> Op,
        done: seq<nat>, rest: seq<nat>)
    requires ValidEncoder(e) && (forall c | c in ctxs :: ValidCtx(c)) && InTable(next, |ctxs|)
    requires Codable(next, done, rest) && Inside(s, p, Encode(e, ctxs, next, done, rest))
    ensures Inside(s, p, e) && Bins(s, EngineOf(s, p, e), ctxs, next, |rest|, done) == done + rest
    decreases |rest|
  {
    hide Inside, EngineOf, EncodeDecision, EncodeBypass, EncodeTerminate, DecodeDecision, DecodeBypass, DecodeTerminate;
    if rest == [] {
      assert done + rest == done;
    } else {
      var bin, more := rest[0], done + [rest[0]];
      assert more + rest[1..] == done + rest;
      match next(done) {
        case Decision(i) =>
          DecodesEncoded(s, p, EncodeDecision(e, ctxs[i], bin), ctxs[i := NextCtx(ctxs[i], bin)], next, more,
              rest[1..]);
          DecisionInside(s, p, e, ctxs[i], bin);
        case Bypass =>
          BypassValid(e, bin);
          DecodesEncoded(s, p, EncodeBypass(e, bin), ctxs, next, more, rest[1..]);
          BypassInside(s, p, e, bin);
        case Terminate =>
          if bin == 1 {
            assert rest == [1];
          } else {
            DecodesEncoded(s, p, EncodeTerminate(e, 0), ctxs, next, more, rest[1..]);
          }
          TerminateInside(s, p, e, bin);
      }
      EngineValid(s, p, e);
    }
  }

  lemma BypassValid(e: Encoder, bin: nat)
    requires ValidEncoder(e)
    ensures ValidEncoder(EncodeBypass(e, bin))
  {
  }

  lemma EngineValid(s: seq<byte>, p: nat, e: Encoder)
    requires ValidEncoder(e) && Inside(s, p, e)
    ensures ValidEngine(EngineOf(s, p, e))
  {
  }

  const START := Encoder(0, 510, 0)

  /** From the start on (9.3.4.1, 9.3.1.2), for every parser and all bins. */
  lemma RoundTrip(s: seq<byte>, q: nat, ctxs: seq<Ctx>, next: seq<nat> -> Op, bins: seq<nat>)
    requires (forall c | c in ctxs :: ValidCtx(c)) && InTable(next, |ctxs|) && Codable(next, [], bins)
    requires Inside(s, Ceil8(q), Encode(START, ctxs, next, [], bins))
    ensures ValidEngine(StartEngine(s, q)) && Bins(s, StartEngine(s, q), ctxs, next, |bins|, []) == bins
  {
    hide ReadBits, Bins, Encode, Codable;
    DecodesEncoded(s, Ceil8(q), START, ctxs, next, [], bins);
    assert StartEngine(s, q) == EngineOf(s, Ceil8(q), START);
    assert [] + bins == bins;
  }

  /** EncodeFlush (Figure 9-12) writes the bits of codILow with the last one set, which are in its interval. */
  lemma FlushInside(s: seq<byte>, p: nat, e: Encoder)
    requires ValidEncoder(e)
    requires var f := EncodeTerminate(e, 1); ReadBits(s, p, 9 + f.n) == if f.low % 2 == 1 then f.low else f.low + 1
    ensures Inside(s, p, EncodeTerminate(e, 1))
  {
    hide ReadBits;
  }
}
