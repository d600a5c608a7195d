/**
 * Emulation prevention (clauses 7.3.1 and 7.4.1 of H.264): the payload of a NAL unit, the encoder
 * that protects it, and the payload as seen from a position in the memory around the NAL unit.
 */
module Nal {
  import opened Arithmetic
  import opened Bits

  // Zero bytes seen in a row, counted up to two.
  function NextZeros(z: nat, b: byte): nat {
    if b != 0 then 0 else if z == 0 then 1 else 2
  }

  /**
   * The payload read byte by byte after z zero bytes: 00 00 03 drops its 03, and 00 00 0n with
   * n < 3 belongs to the next NAL unit (or to its padding) and ends the payload.
   */
  function Payload(nal: seq<byte>, z: nat): seq<byte> {
    if nal == [] then []
    else if z >= 2 && nal[0] == 3 then Payload(nal[1..], 0)
    else if z >= 2 && nal[0] < 3 then []
    else [nal[0]] + Payload(nal[1..], NextZeros(z, nal[0]))
  }

  /** The encoder of clause 7.4.1, inserting 03 before every byte that would complete 00 00 0n, n <= 3. */
  function Escape(rbsp: seq<byte>, z: nat): seq<byte> {
    if rbsp == [] then []
    else if z >= 2 && rbsp[0] <= 3 then [3, rbsp[0]] + Escape(rbsp[1..], NextZeros(0, rbsp[0]))
    else [rbsp[0]] + Escape(rbsp[1..], NextZeros(z, rbsp[0]))
  }

  lemma {:induction false} PayloadOfEscape(rbsp: seq<byte>, z: nat)
    ensures Payload(Escape(rbsp, z), z) == rbsp
  {
    if rbsp == [] {
    } else if z >= 2 && rbsp[0] <= 3 {
      var tail := Escape(rbsp[1..], NextZeros(0, rbsp[0]));
      assert Escape(rbsp, z)[1..] == [rbsp[0]] + tail;
      assert ([rbsp[0]] + tail)[1..] == tail;
      PayloadOfEscape(rbsp[1..], NextZeros(0, rbsp[0]));
    } else {
      assert Escape(rbsp, z)[1..] == Escape(rbsp[1..], NextZeros(z, rbsp[0]));
      PayloadOfEscape(rbsp[1..], NextZeros(z, rbsp[0]));
    }
  }

  // The memory of a NAL unit: its bytes are mem[16..end0], and at least 00 01 stands before them.
  ghost predicate Memory(mem: seq<byte>, end0: nat) {
    16 <= end0 <= |mem| && mem[14] == 0 && mem[15] == 1 && |mem| % 16 == 0
  }

  // A byte as the reader sees it, zero from end on.
  function Seen(mem: seq<byte>, end: nat, q: nat): byte
    requires end <= |mem|
  {
    if q < end then mem[q] else 0
  }

  ghost predicate AfterZeros(mem: seq<byte>, end: nat, q: nat)
    requires end <= |mem| && 2 <= q
  {
    q < end && mem[q - 2] == 0 && mem[q - 1] == 0
  }

  ghost predicate EscapeAt(mem: seq<byte>, end: nat, q: nat)
    requires end <= |mem| && 2 <= q
  {
    AfterZeros(mem, end, q) && mem[q] == 3
  }

  ghost predicate StopAt(mem: seq<byte>, end: nat, q: nat)
    requires end <= |mem| && 2 <= q
  {
    AfterZeros(mem, end, q) && mem[q] < 3
  }

  ghost function ZerosBefore(mem: seq<byte>, p: nat): nat
    requires 2 <= p <= |mem|
  {
    if mem[p - 1] != 0 then 0 else if mem[p - 2] != 0 then 1 else 2
  }

  // What is left of the payload from memory position p on.
  ghost function Rest(mem: seq<byte>, end: nat, p: nat): seq<byte>
    requires end <= |mem| && 2 <= p
  {
    if p >= end then [] else Payload(mem[p..end], ZerosBefore(mem, p))
  }

  lemma RestStep(mem: seq<byte>, end: nat, p: nat)
    requires end <= |mem| && 2 <= p < end
    ensures Rest(mem, end, p) ==
            if EscapeAt(mem, end, p) then Rest(mem, end, p + 1)
            else if StopAt(mem, end, p) then []
            else [mem[p]] + Rest(mem, end, p + 1)
  {
    var nal := mem[p..end];
    assert nal[1..] == mem[p + 1..end];
    assert Payload([], 0) == [];
    assert nal[0] == mem[p];
    var z := ZerosBefore(mem, p);
    assert z >= 2 <==> AfterZeros(mem, end, p);
    if p + 1 == end {
      assert nal[1..] == [];
      assert Payload(nal[1..], 0) == [] && Payload(nal[1..], NextZeros(z, mem[p])) == [];
    } else {
      assert ZerosBefore(mem, p + 1) == if EscapeAt(mem, end, p) then 0 else NextZeros(z, mem[p]);
    }
  }

  // Byte k of what is left from p on, zeros after the payload.
  ghost function RestAt(mem: seq<byte>, end: nat, p: nat, k: nat): byte
    requires end <= |mem| && 2 <= p
  {
    ByteAt(Rest(mem, end, p), k)
  }

  lemma RestAtByte(mem: seq<byte>, end: nat, p: nat, k: nat)
    requires end <= |mem| && 2 <= p
    ensures RestAt(mem, end, p, k) ==
            if p >= end || StopAt(mem, end, p) then 0
            else if EscapeAt(mem, end, p) then RestAt(mem, end, p + 1, k)
            else if k == 0 then mem[p] else RestAt(mem, end, p + 1, k - 1)
  {
    if p < end {
      RestStep(mem, end, p);
    }
  }

  /** Cutting the memory at the first zero of a 00 00 0n stop leaves the payload as it was. */
  lemma {:induction false} Truncate(mem: seq<byte>, end: nat, s: nat, p: nat, k: nat)
    requires 2 <= p <= s + 2 && s <= end <= |mem|
    requires Seen(mem, end, s) == 0 && Seen(mem, end, s + 1) == 0 && Seen(mem, end, s + 2) < 3
    requires forall q | p <= q < s + 2 :: !StopAt(mem, end, q)
    ensures RestAt(mem, end, p, k) == RestAt(mem, s, p, k)
    decreases s + 2 - p
  {
    hide RestAt;
    RestAtByte(mem, end, p, k);
    RestAtByte(mem, s, p, k);
    if p >= end {
    } else if p == s + 2 {
      assert StopAt(mem, end, p);
    } else {
      assert !StopAt(mem, end, p);
      if EscapeAt(mem, end, p) {
        Truncate(mem, end, s, p + 1, k);
      } else if k > 0 {
        Truncate(mem, end, s, p + 1, k - 1);
      }
      if p >= s {
        RestAtByte(mem, s, p + 1, k);
        RestAtByte(mem, s, p + 1, Pred(k));
      }
    }
  }

  function Pred(k: nat): nat {
    if k == 0 then 0 else k - 1
  }

  /** The first t bytes of x without the flagged ones. */
  function Strip(x: seq<byte>, esc: seq<bool>, t: nat): (s: seq<byte>)
    requires t <= |x| && t <= |esc|
    ensures |s| <= t
  {
    if t == 0 then [] else Strip(x, esc, t - 1) + if esc[t - 1] then [] else [x[t - 1]]
  }

  lemma {:induction false} StripUnflagged(x: seq<byte>, esc: seq<bool>, t: nat, u: nat)
    requires t <= u <= |x| && u <= |esc| && forall i | t <= i < u :: !esc[i]
    ensures Strip(x, esc, u) == Strip(x, esc, t) + x[t..u]
    decreases u
  {
    if t == u {
      assert x[t..u] == [];
    } else {
      StripUnflagged(x, esc, t, u - 1);
      assert x[t..u] == x[t..u - 1] + [x[u - 1]];
    }
  }

  // Flags at least three apart leave most bytes.
  lemma {:induction false} StripLength(x: seq<byte>, esc: seq<bool>, t: nat)
    requires t <= |x| && t <= |esc|
    requires forall i, j | 0 <= i < j < t && esc[i] && esc[j] :: j >= i + 3
    ensures 3 * |Strip(x, esc, t)| + 2 >= 2 * t
  {
    if t == 0 {
    } else if !esc[t - 1] {
      StripLength(x, esc, t - 1);
    } else if t <= 3 {
      StripUnflagged(x, esc, 0, t - 1);
    } else {
      StripLength(x, esc, t - 3);
      StripUnflagged(x, esc, t - 3, t - 1);
    }
  }

  // Byte b stands at q, where there is no stop, and is flagged exactly if it is an escape.
  ghost predicate Flagged(mem: seq<byte>, end: nat, q: nat, b: byte, flag: bool)
    requires end <= |mem| && 2 <= q
  {
    && b == Seen(mem, end, q)
    && (q < end ==> !StopAt(mem, end, q) && (flag <==> EscapeAt(mem, end, q)))
  }

  lemma RestAtStep(mem: seq<byte>, end: nat, p: nat, b: byte, flag: bool, k: nat)
    requires end <= |mem| && 2 <= p && Flagged(mem, end, p, b, flag)
    ensures RestAt(mem, end, p, k) ==
            if flag then RestAt(mem, end, p + 1, k) else if k == 0 then b else RestAt(mem, end, p + 1, k - 1)
  {
    if p < end {
      RestStep(mem, end, p);
    }
  }

  // Byte k of s, then of what is left from p on.
  ghost function Chain(s: seq<byte>, mem: seq<byte>, end: nat, p: nat, k: nat): byte
    requires end <= |mem| && 2 <= p
  {
    if k < |s| then s[k] else RestAt(mem, end, p, k - |s|)
  }

  lemma ChainStep(s: seq<byte>, mem: seq<byte>, end: nat, p: nat, b: byte, flag: bool, k: nat)
    requires end <= |mem| && 2 <= p && Flagged(mem, end, p, b, flag)
    ensures Chain(s, mem, end, p, k) == Chain(s + if flag then [] else [b], mem, end, p + 1, k)
  {
    if k >= |s| {
      RestAtStep(mem, end, p, b, flag, k - |s|);
    }
  }

  // Lane i of a window stands at p + i.
  ghost predicate Lane(mem: seq<byte>, end: nat, p: nat, x: seq<byte>, esc: seq<bool>, i: nat)
    requires end <= |mem| && 2 <= p && i < |x| && i < |esc|
  {
    Flagged(mem, end, p + i, x[i], esc[i])
  }

  lemma ConsumeStep(mem: seq<byte>, end: nat, p: nat, x: seq<byte>, esc: seq<bool>, t: nat, k: nat)
    requires end <= |mem| && 2 <= p && t < |x| && t < |esc| && Lane(mem, end, p, x, esc, t)
    ensures Chain(Strip(x, esc, t), mem, end, p + t, k) == Chain(Strip(x, esc, t + 1), mem, end, p + (t + 1), k)
  {
    hide Chain, Flagged;
    ChainStep(Strip(x, esc, t), mem, end, p + t, x[t], esc[t], k);
    assert p + t + 1 == p + (t + 1);
  }

  /** The unflagged bytes of a window are the next bytes of the payload, and what follows it the rest. */
  lemma {:induction false} Consume(mem: seq<byte>, end: nat, p: nat, x: seq<byte>, esc: seq<bool>, t: nat, k: nat)
    requires end <= |mem| && 2 <= p && t <= |x| && t <= |esc|
    requires forall i | 0 <= i < t :: Lane(mem, end, p, x, esc, i)
    ensures RestAt(mem, end, p, k) == Chain(Strip(x, esc, t), mem, end, p + t, k)
    decreases t
  {
    hide RestAt, Lane;
    if t == 0 {
    } else {
      hide Chain, Strip;
      Consume(mem, end, p, x, esc, t - 1, k);
      ConsumeStep(mem, end, p, x, esc, t - 1, k);
    }
  }

  /** Memory position after n payload bytes from p on, stepping over the escape before each. */
  ghost function Advance(mem: seq<byte>, end: nat, p: nat, n: nat): (q: nat)
    requires end <= |mem| && 2 <= p
    ensures q >= p + n
  {
    if n == 0 then p
    else
      var q := Advance(mem, end, p, n - 1);
      if EscapeAt(mem, end, q) then q + 2 else q + 1
  }

  lemma {:induction false} AdvanceAdd(mem: seq<byte>, end: nat, p: nat, n: nat, m: nat)
    requires end <= |mem| && 2 <= p
    ensures Advance(mem, end, p, n + m) == Advance(mem, end, Advance(mem, end, p, n), m)
    decreases m
  {
    if m == 0 {
    } else {
      AdvanceAdd(mem, end, p, n, m - 1);
      assert n + m - 1 == n + (m - 1);
    }
  }

  // Stepping over an escape first or not, the next n > 0 payload bytes end at the same place.
  lemma {:induction false} AdvanceSkip(mem: seq<byte>, end: nat, p: nat, n: nat)
    requires end <= |mem| && 2 <= p && EscapeAt(mem, end, p) && n > 0
    ensures Advance(mem, end, p, n) == Advance(mem, end, p + 1, n)
  {
    if n == 1 {
      assert !EscapeAt(mem, end, p + 1);
      assert Advance(mem, end, p, 0) == p && Advance(mem, end, p + 1, 0) == p + 1;
    } else {
      AdvanceSkip(mem, end, p, n - 1);
    }
  }

  /** Position p is behind the first n payload bytes, and maybe behind the escape that follows them. */
  ghost predicate Position(mem: seq<byte>, end: nat, p: nat, n: nat)
    requires end <= |mem|
  {
    var a := Advance(mem, end, 16, n);
    p == a || (EscapeAt(mem, end, a) && p == a + 1)
  }

  lemma PositionNext(mem: seq<byte>, end: nat, p: nat, n: nat, m: nat)
    requires end <= |mem| && 2 <= p && Position(mem, end, p, n) && m > 0
    ensures Position(mem, end, Advance(mem, end, p, m), n + m)
  {
    var a := Advance(mem, end, 16, n);
    AdvanceAdd(mem, end, 16, n, m);
    if p != a {
      AdvanceSkip(mem, end, a, m);
    }
  }

  // The number of flags from lane t on, before lane u.
  function Flags(esc: seq<bool>, t: nat, u: nat): (n: nat)
    requires t <= u <= |esc|
    ensures n <= u - t
  {
    if t == u then 0 else Flags(esc, t, u - 1) + if esc[u - 1] then 1 else 0
  }

  lemma {:induction false} FlagsSplit(esc: seq<bool>, t: nat, m: nat, u: nat)
    requires t <= m <= u <= |esc|
    ensures Flags(esc, t, u) == Flags(esc, t, m) + Flags(esc, m, u)
  {
    if m < u {
      FlagsSplit(esc, t, m, u - 1);
    }
  }

  lemma {:induction false} StripCount(x: seq<byte>, esc: seq<bool>, t: nat)
    requires t <= |x| && t <= |esc|
    ensures |Strip(x, esc, t)| + Flags(esc, 0, t) == t
  {
    if t > 0 {
      StripCount(x, esc, t - 1);
    }
  }

  /** A window whose escapes are the flagged lanes below b: where its bytes take the position. */
  lemma {:induction false} ConsumePosition(mem: seq<byte>, end: nat, p: nat, esc: seq<bool>, b: nat, t: nat)
    requires end <= |mem| && 2 <= p && t <= |esc|
    requires forall i | 0 <= i < t :: esc[i] && i < b <==> EscapeAt(mem, end, p + i)
    ensures Advance(mem, end, p, t - Flags(esc, 0, Min(t, b))) ==
            if t > 0 && esc[t - 1] && t - 1 < b then p + t - 1 else p + t
    decreases t
  {
    if t == 0 {
    } else {
      ConsumePosition(mem, end, p, esc, b, t - 1);
      assert esc[t - 1] && t - 1 < b <==> EscapeAt(mem, end, p + (t - 1));
      if t >= 2 {
        assert esc[t - 2] && t - 2 < b <==> EscapeAt(mem, end, p + (t - 2));
      }
    }
  }

  // No 00 00 0n with n < 3 before p.
  ghost predicate NoStop(mem: seq<byte>, end: nat, p: nat)
    requires end <= |mem|
  {
    forall q | 16 <= q < p :: !StopAt(mem, end, q)
  }

  /** NAL units without a 00 00 03 behind a 00 00 0n, n < 3: in particular if only zeros follow that. */
  ghost predicate Tidy(mem: seq<byte>, end0: nat)
    requires end0 <= |mem|
  {
    forall q, r | 16 <= q < r && StopAt(mem, end0, q) :: !EscapeAt(mem, end0, r)
  }

  // Passing one payload byte, and the escape before it.
  lemma RestAtNext(mem: seq<byte>, end: nat, b: nat, k: nat)
    requires end <= |mem| && 2 <= b && !StopAt(mem, end, b) && (EscapeAt(mem, end, b) ==> !StopAt(mem, end, b + 1))
    ensures RestAt(mem, end, b, 1 + k) == RestAt(mem, end, if EscapeAt(mem, end, b) then b + 2 else b + 1, k)
  {
    hide RestAt;
    RestAtByte(mem, end, b, 1 + k);
    RestAtByte(mem, end, b + 1, 1 + k);
    RestAtByte(mem, end, b + 1, k);
    RestAtByte(mem, end, b + 2, k);
  }

  lemma NoStopAt(mem: seq<byte>, end: nat, p: nat, b: nat)
    requires end <= |mem| && NoStop(mem, end, p) && 16 <= b
    ensures b < p ==> !StopAt(mem, end, b) && NoStop(mem, end, b)
  {
  }

  /** Up to the first stop, what is left behind n payload bytes is the payload behind them. */
  lemma {:induction false} AdvanceRest(mem: seq<byte>, end: nat, n: nat, k: nat)
    requires end <= |mem| && NoStop(mem, end, Advance(mem, end, 16, n))
    ensures RestAt(mem, end, Advance(mem, end, 16, n), k) == RestAt(mem, end, 16, n + k)
    decreases n
  {
    hide RestAt, StopAt, EscapeAt, NoStop;
    if n == 0 {
    } else {
      var b, p := Advance(mem, end, 16, n - 1), Advance(mem, end, 16, n);
      NoStopAt(mem, end, p, b);
      NoStopAt(mem, end, p, b + 1);
      AdvanceRest(mem, end, n - 1, 1 + k);
      assert n - 1 + (1 + k) == n + k;
      RestAtNext(mem, end, b, k);
    }
  }

  lemma PositionRest(mem: seq<byte>, end: nat, p: nat, n: nat, k: nat)
    requires end <= |mem| && NoStop(mem, end, p) && Position(mem, end, p, n)
    ensures 16 <= p && RestAt(mem, end, p, k) == RestAt(mem, end, 16, n + k)
  {
    hide RestAt;
    AdvanceRest(mem, end, n, k);
    RestAtByte(mem, end, Advance(mem, end, 16, n), k);
  }

  // Moving the end leaves the positions before which the escapes are the same.
  lemma {:induction false} AdvanceCut(mem: seq<byte>, end: nat, newEnd: nat, p: nat, n: nat)
    requires end <= |mem| && newEnd <= |mem| && Advance(mem, end, 16, n) <= p
    requires forall q | 16 <= q < p :: EscapeAt(mem, end, q) <==> EscapeAt(mem, newEnd, q)
    ensures Advance(mem, newEnd, 16, n) == Advance(mem, end, 16, n)
    decreases n
  {
    if n == 0 {
    } else {
      AdvanceCut(mem, end, newEnd, p, n - 1);
    }
  }

  lemma PositionCut(mem: seq<byte>, end: nat, newEnd: nat, p: nat, n: nat)
    requires end <= |mem| && newEnd <= |mem| && Position(mem, end, p, n)
    requires forall q | 16 <= q < p :: EscapeAt(mem, end, q) <==> EscapeAt(mem, newEnd, q)
    ensures Position(mem, newEnd, p, n)
  {
    AdvanceCut(mem, end, newEnd, p, n);
  }

  // The three bytes before p are an escape and the zeros before it.
  predicate EscapeBefore(mem: seq<byte>, end: nat, p: nat)
    requires end <= |mem| && 3 <= p
  {
    p <= end && mem[p - 3] == 0 && mem[p - 2] == 0 && mem[p - 1] == 3
  }

  /** Stepping back over the payload byte before p, and over an escape after it. */
  lemma RewindPosition(mem: seq<byte>, end: nat, p: nat, n: nat)
    requires end <= |mem| && n > 0 && Position(mem, end, p, n)
    ensures p >= 17 && Position(mem, end, if EscapeBefore(mem, end, p) then p - 2 else p - 1, n - 1)
  {
    var a, b := Advance(mem, end, 16, n), Advance(mem, end, 16, n - 1);
    assert a == if EscapeAt(mem, end, b) then b + 2 else b + 1;
    assert EscapeBefore(mem, end, p) <==> p - 1 < end && EscapeAt(mem, end, p - 1);
  }
}
