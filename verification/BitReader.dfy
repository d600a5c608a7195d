/**
 * The bit reader: bytes are taken from the NAL unit with their escapes removed on the way
 * (get_bytes), into a cache of two 64-bit words from which codes are read.
 */
module BitReader {
  import opened Arithmetic
  import opened Bits
  import opened Nal
  import opened Cache

  // Index of the first set flag, the number of flags if none is set (__builtin_ctz on a mask).
  function First(mask: seq<bool>): (i: nat)
    ensures i <= |mask| && (i < |mask| ==> mask[i])
    ensures forall t | 0 <= t < i :: !mask[t]
  {
    if mask == [] || mask[0] then 0
    else
      assert forall t | 1 <= t < |mask| :: mask[t] == mask[1..][t - 1];
      1 + First(mask[1..])
  }

  // The 16 lanes of v in which 00 00 0n with n <= 3 starts, n being in that lane of v shifted by two.
  function EscapeLanes(v: seq<byte>): (m: seq<bool>)
    requires |v| == 16
    ensures |m| == 16 && forall t | 0 <= t < 14 :: m[t] <==> v[t] == 0 && v[t + 1] == 0 && v[t + 2] <= 3
    ensures !m[14] && !m[15]
  {
    seq(16, t requires 0 <= t < 16 => t < 14 && v[t] == 0 && v[t + 1] == 0 && v[t + 2] <= 3)
  }

  function Zeros(n: nat): (z: seq<byte>)
    ensures |z| == n && forall t | 0 <= t < n :: z[t] == 0
  {
    seq(n, t => 0)
  }

  function Shlv(a: seq<byte>, i: nat): (y: seq<byte>)
    requires |a| == 16 && i <= 16
    ensures |y| == 16 && forall t | 0 <= t < 16 :: y[t] == if t < i then 0 else a[t - i]
  {
    Zeros(i) + a[..16 - i]
  }

  function Shrv(a: seq<byte>, i: nat): (y: seq<byte>)
    requires |a| == 16 && i <= 16
    ensures |y| == 16 && forall t | 0 <= t < 16 :: y[t] == if t + i < 16 then a[t + i] else 0
  {
    a[i..] + Zeros(i)
  }

  // v holds the 16 bytes seen from two bytes before p on.
  ghost predicate Loaded(mem: seq<byte>, end: nat, p: nat, v: seq<byte>)
    requires end <= |mem| && 2 <= p
  {
    |v| == 16 && forall t | 0 <= t < 16 :: v[t] == Seen(mem, end, p - 2 + t)
  }

  lemma LastBlock(end: nat, size: nat)
    requires 0 < end <= size && size % 16 == 0
    ensures var block := (end - 1) / 16 * 16; block < end <= block + 16 <= size
  {
  }

  // The load near the end, from memory that holds it: shifts drop the bytes behind the end and before p - 2.
  function LoadAtEnd(mem: seq<byte>, end: nat, p: nat, from: nat): (v: seq<byte>)
    requires end <= |mem| && 2 <= p < end + 2 && end - p < 14 && from <= p - 2 && from < end <= from + 16 <= |mem|
    ensures Loaded(mem, end, p, v)
  {
    Shrv(Shlv(mem[from..from + 16], from + 16 - end), Min(14 + p - end, 16))
  }

  /** The three loads of get_bytes, which stay inside the 16-byte blocks of the NAL unit's memory. */
  function Load(mem: seq<byte>, end: nat, p: nat): (v: seq<byte>)
    requires 14 <= end <= |mem| && |mem| % 16 == 0 && 2 <= p < end + 2
    ensures |v| == 16 && Loaded(mem, end, p, v)
  {
    if p - end <= -14 then mem[p - 2..p + 14]
    else
      LastBlock(end, |mem|);
      var block := (end - 1) / 16 * 16;
      LoadAtEnd(mem, end, p, if p - 2 < block then p - 2 else block)
  }

  predicate Escaped(v: seq<byte>, t: nat)
    requires |v| == 16
  {
    t < 14 && v[t] == 0 && v[t + 1] == 0 && v[t + 2] == 3
  }

  predicate Stopped(v: seq<byte>, t: nat)
    requires |v| == 16
  {
    t < 14 && v[t] == 0 && v[t + 1] == 0 && v[t + 2] < 3
  }

  ghost predicate Apart(esc: seq<bool>) {
    forall i, j | 0 <= i < j < |esc| && esc[i] && esc[j] :: j >= i + 3
  }

  // The lanes of bytes 3 that end 00 00 03.
  function Escapes(v: seq<byte>): (m: seq<bool>)
    requires |v| == 16
    ensures |m| == 16 && forall t | 0 <= t < 16 :: m[t] <==> Escaped(v, t)
    ensures Apart(m)
  {
    var test := EscapeLanes(v);
    var m := seq(16, t requires 0 <= t < 16 => test[t] && v[t + 2] == 3);
    assert forall t | 0 <= t < 16 :: m[t] <==> Escaped(v, t);
    EscapesApart(v, m);
    m
  }

  lemma EscapesApart(v: seq<byte>, m: seq<bool>)
    requires |v| == 16 == |m| && forall t | 0 <= t < 16 :: m[t] <==> Escaped(v, t)
    ensures Apart(m)
  {
    forall i, j | 0 <= i < j < 16 && m[i] && m[j]
      ensures j >= i + 3
    {
      assert v[i + 2] == 3 && v[j] == 0 && v[j + 1] == 0;
    }
  }

  // The first lane of a byte below 3 that ends 00 00 0n, 16 without any.
  function StopLane(v: seq<byte>): (i: nat)
    requires |v| == 16
    ensures i <= 16 && (i < 16 ==> Stopped(v, i))
    ensures forall t | 0 <= t < i :: !Stopped(v, t)
  {
    var test := EscapeLanes(v);
    var stop := seq(16, t requires 0 <= t < 16 => test[t] && v[t + 2] != 3);
    assert forall t | 0 <= t < 16 :: stop[t] <==> Stopped(v, t);
    First(stop)
  }

  // x without its lanes from i on.
  function Below(x: seq<byte>, i: nat): (y: seq<byte>)
    requires |x| == 16 && i <= 16
    ensures |y| == 16 && forall t | 0 <= t < 16 :: y[t] == if t < i then x[t] else 0
  {
    x[..i] + Zeros(16 - i)
  }

  // x with lane i removed, the lanes after it moved down.
  function RemoveLane<T>(x: seq<T>, i: nat, fill: T): (y: seq<T>)
    requires i < |x|
    ensures |y| == |x| && forall t | 0 <= t < |x| - 1 :: y[t] == x[if t < i then t else t + 1]
    ensures y[|x| - 1] == fill
  {
    x[..i] + x[i + 1..] + [fill]
  }

  // What the lanes say of the bytes from p on.
  lemma LanesFlag(mem: seq<byte>, end: nat, p: nat, v: seq<byte>, t: nat)
    requires end <= |mem| && 2 <= p && Loaded(mem, end, p, v) && t < 14
    ensures p + t < end ==> (Stopped(v, t) <==> StopAt(mem, end, p + t))
    ensures Escaped(v, t) <==> EscapeAt(mem, end, p + t)
    ensures v[t + 2] == Seen(mem, end, p + t)
  {
    assert v[t] == Seen(mem, end, p - 2 + t) && v[t + 1] == Seen(mem, end, p - 2 + (t + 1));
    assert v[t + 2] == Seen(mem, end, p - 2 + (t + 2));
  }

  // The zeros seen past the end make a stop.
  lemma EndStops(mem: seq<byte>, end: nat, p: nat, v: seq<byte>)
    requires end <= |mem| && 2 <= p < end + 2 && end < p + 12 && Loaded(mem, end, p, v)
    ensures Stopped(v, end - (p - 2))
  {
    forall u | end - (p - 2) <= u < 16
      ensures v[u] == 0
    {
    }
  }

  /** The first stop cuts the memory without changing the payload. */
  lemma StopCuts(mem: seq<byte>, end: nat, p: nat, v: seq<byte>, i: nat)
    requires 14 <= end <= |mem| && 16 <= p < end + 2 && Loaded(mem, end, p, v)
    requires Stopped(v, i)
    requires forall t | 0 <= t < i :: !Stopped(v, t)
    ensures 14 <= p + i - 2 <= end
    ensures forall k: nat :: RestAt(mem, end, p, k) == RestAt(mem, p + i - 2, p, k)
    ensures forall q | p + i - 2 <= q < end && q < p + i :: mem[q] == 0
    ensures p + i < end ==> StopAt(mem, end, p + i)
  {
    var s := p + i - 2;
    if end < p + 12 {
      EndStops(mem, end, p, v);
    }
    assert v[i] == Seen(mem, end, p - 2 + i) && v[i + 1] == Seen(mem, end, p - 2 + (i + 1));
    LanesFlag(mem, end, p, v, i);
    forall q | p <= q < p + i
      ensures !StopAt(mem, end, q)
    {
      LanesFlag(mem, end, p, v, q - p);
    }
    forall k: nat
      ensures RestAt(mem, end, p, k) == RestAt(mem, s, p, k)
    {
      Truncate(mem, end, s, p, k);
    }
  }

  // x and esc are x0 and esc0 after c removals, the last of them at lane lo.
  ghost predicate Removed(x0: seq<byte>, esc0: seq<bool>, x: seq<byte>, esc: seq<bool>, lo: nat, c: nat) {
    && |x0| == 16 == |esc0| && |x| == 16 == |esc| && lo + c <= 16
    && Strip(x0, esc0, lo + c) == x[..lo]
    && (forall t | lo <= t < 16 - c :: x[t] == x0[t + c] && (esc[t] <==> esc0[t + c]))
    && (forall t | 0 <= t < lo :: !esc[t])
  }

  lemma RemoveStep(x0: seq<byte>, esc0: seq<bool>, x: seq<byte>, esc: seq<bool>, lo: nat, c: nat, i: nat)
    requires Removed(x0, esc0, x, esc, lo, c) && lo <= i < 16 - c && esc[i]
    requires forall t | 0 <= t < i :: !esc[t]
    ensures Removed(x0, esc0, RemoveLane(x, i, 0), RemoveLane(esc, i, false), i, c + 1)
  {
    Unflagged(x0, esc0, x, esc, lo, c, i);
    assert RemoveLane(x, i, 0)[..i] == x[..i];
  }

  // Without flags up to lane i, the lanes up to it are final.
  lemma Unflagged(x0: seq<byte>, esc0: seq<bool>, x: seq<byte>, esc: seq<bool>, lo: nat, c: nat, i: nat)
    requires Removed(x0, esc0, x, esc, lo, c) && lo <= i <= 16 - c
    requires forall t | 0 <= t < i :: !esc[t]
    ensures Strip(x0, esc0, i + c) == x[..i]
  {
    forall t | lo + c <= t < i + c
      ensures !esc0[t]
    {
      assert esc[t - c] <==> esc0[t - c + c];
    }
    StripUnflagged(x0, esc0, lo + c, i + c);
    assert x[..i] == x[..lo] + x0[lo + c..i + c];
  }

  /** The loop of get_bytes: removes the flagged bytes below lane nbytes, counting them. */
  method RemoveEscapes(x0: seq<byte>, esc0: seq<bool>, nbytes: nat) returns (x: seq<byte>, c: nat)
    requires |x0| == 16 == |esc0| && 1 <= nbytes <= 8
    requires Apart(esc0)
    ensures |x| == 16 && c <= 4 && x[..nbytes] == Strip(x0, esc0, nbytes + c)
    ensures !esc0[nbytes + c - 1]
  {
    hide Strip;
    x, c := x0, 0;
    var esc := esc0;
    ghost var lo: nat := 0;
    while First(esc) < nbytes
      invariant lo < nbytes && 2 * c <= lo + 2
      invariant Removed(x0, esc0, x, esc, lo, c)
      decreases 8 - c
    {
      var i := First(esc);
      RemoveStep(x0, esc0, x, esc, lo, c, i);
      x := RemoveLane(x, i, 0);
      esc := RemoveLane(esc, i, false);
      lo, c := i, c + 1;
      StripLength(x0, esc0, lo + c);
    }
    Unflagged(x0, esc0, x, esc, lo, c, nbytes);
    assert esc[nbytes - 1] <==> esc0[nbytes - 1 + c];
  }

  function From(s: seq<byte>, loaded: nat, k: nat): byte {
    ByteAt(s, loaded + k)
  }

  // The payload s from byte loaded on is what is left to see from p on.
  ghost predicate Points(mem: seq<byte>, end: nat, p: nat, s: seq<byte>, loaded: nat)
    requires end <= |mem| && 2 <= p
  {
    forall k: nat :: RestAt(mem, end, p, k) == From(s, loaded, k)
  }

  // Lanes without stop, as they are from p on.
  lemma WindowFlagged(mem: seq<byte>, end: nat, p: nat, v: seq<byte>, esc: seq<bool>, t: nat)
    requires end <= |mem| && 2 <= p && Loaded(mem, end, p, v) && |esc| == 16 && t < 14
    requires esc[t] <==> Escaped(v, t)
    requires !Stopped(v, t)
    ensures Flagged(mem, end, p + t, v[t + 2], esc[t])
  {
    LanesFlag(mem, end, p, v, t);
  }

  // Lanes cut from stop i on, as they are from p on in the memory cut there.
  lemma CutFlagged(mem: seq<byte>, end: nat, p: nat, v: seq<byte>, esc: seq<bool>, x: seq<byte>, i: nat, t: nat)
    requires 14 <= end <= |mem| && 16 <= p < end + 2 && Loaded(mem, end, p, v) && |esc| == 16 == |x| && t < 14
    requires Stopped(v, i)
    requires esc[t] <==> Escaped(v, t)
    requires forall u | 0 <= u < i :: !Stopped(v, u)
    requires x[t] == if t < i then v[t + 2] else 0
    requires p + i - 2 <= end
    ensures Flagged(mem, p + i - 2, p + t, x[t], esc[t])
  {
    LanesFlag(mem, end, p, v, t);
    assert v[i] == 0 && v[i + 1] == 0;
  }

  // Taking the lanes before t.
  lemma Take(mem: seq<byte>, end: nat, p: nat, s: seq<byte>, loaded: nat, x: seq<byte>, esc: seq<bool>, t: nat)
    requires end <= |mem| && 2 <= p && t <= |x| && t <= |esc| && Points(mem, end, p, s, loaded)
    requires forall i | 0 <= i < t :: Lane(mem, end, p, x, esc, i)
    ensures Points(mem, end, p + t, s, loaded + |Strip(x, esc, t)|)
    ensures forall j: nat | j < |Strip(x, esc, t)| :: Strip(x, esc, t)[j] == From(s, loaded, j)
  {
    hide RestAt, Lane, ByteAt, Strip;
    var y := Strip(x, esc, t);
    var q, l := p + t, loaded + |y|;
    forall k: nat
      ensures RestAt(mem, end, q, k) == From(s, l, k)
    {
      Consume(mem, end, p, x, esc, t, |y| + k);
      assert RestAt(mem, end, p, |y| + k) == From(s, loaded, |y| + k);
    }
    forall j: nat | j < |y|
      ensures y[j] == From(s, loaded, j)
    {
      Consume(mem, end, p, x, esc, t, j);
    }
  }

  lemma {:induction false} AdvancePast(mem: seq<byte>, end: nat, p: nat, n: nat)
    requires end <= |mem| && 2 <= p && end <= p
    ensures Advance(mem, end, p, n) == p + n
  {
    if n == 0 {
    } else {
      AdvancePast(mem, end, p, n - 1);
    }
  }

  // big_endian64 of the lower 8 lanes
  function BigEndian(x: seq<byte>, w: nat): (r: nat)
    requires w == 8 <= |x|
    ensures r < WORD
  {
    BytesAreBits(x, 0, w);
    Pow2Word(8 * w);
    ReadBytes(x, 0, w)
  }

  /** The first n of the 8 bytes returned. */
  lemma Leading(x: seq<byte>, s: seq<byte>, j: nat, n: nat, w: nat)
    requires n <= w <= |x| && w == 8 && forall k: nat | k < n :: x[k] == From(s, j, k)
    ensures Shr(BigEndian(x, w), 8 * (w - n)) == ReadBytes(s, j, n)
  {
    BytesAreBits(x, 0, w);
    BytesAreBits(x, 0, n);
    Pow2Word(8 * w);
    ReadBitsSplit(x, 0, 8 * n, 8 * (w - n));
    assert 8 * n + 8 * (w - n) == 8 * w;
    SameBytes(x, s, j, n);
  }

  lemma Nothing(mem: seq<byte>, end: nat, p: nat, s: seq<byte>, loaded: nat, n: nat)
    requires end <= |mem| && 2 <= p && end <= p && Points(mem, end, p, s, loaded)
    ensures Points(mem, end, p + n, s, loaded + n)
    ensures ReadBytes(s, loaded, n) == 0
  {
    var q, l := p + n, loaded + n;
    forall k: nat
      ensures From(s, loaded, k) == 0 && RestAt(mem, end, q, k) == From(s, l, k)
    {
      assert RestAt(mem, end, p, k) == From(s, loaded, k);
      assert RestAt(mem, end, p, n + k) == From(s, loaded, n + k);
    }
    forall k | 0 <= k < n
      ensures Zeros(n)[k] == ByteAt(s, loaded + k)
    {
      assert From(s, loaded, k) == 0;
    }
    SameBytes(Zeros(n), s, loaded, n);
    NoBytes(n);
  }

  lemma {:induction false} NoBytes(n: nat)
    ensures forall m | 0 <= m <= n :: ReadBytes(Zeros(n), 0, m) == 0
  {
    var m := 0;
    while m < n
      invariant m <= n && forall k | 0 <= k <= m :: ReadBytes(Zeros(n), 0, k) == 0
    {
      m := m + 1;
    }
  }

  /**
   * The end was moved to the first stop at most, there is none before p, and p is where the first place
   * bytes of the payload s end.
   */
  ghost predicate Placed(mem: seq<byte>, end0: nat, end: nat, p: nat, s: seq<byte>, place: nat) {
    && 14 <= end <= end0 <= |mem| && 16 <= p
    && Points(mem, end, 16, s, 0)
    && NoStop(mem, end, p)
    && Position(mem, end, p, place)
  }

  /**
   * What is left to see in memory from p on is the payload s after the loaded bytes. These are the bytes
   * before p, unless a 00 00 03 behind a stop took p too far.
   */
  ghost predicate Reached(mem: seq<byte>, end0: nat, end: nat, p: nat, s: seq<byte>, loaded: nat, place: nat) {
    && Placed(mem, end0, end, p, s, place)
    && Points(mem, end, p, s, loaded)
    && loaded <= place && (Tidy(mem, end0) ==> loaded == place)
  }

  /** What is left to see from a position is the payload behind the bytes before it. */
  lemma PlacedPoints(mem: seq<byte>, end0: nat, end: nat, p: nat, s: seq<byte>, place: nat)
    requires Placed(mem, end0, end, p, s, place)
    ensures Points(mem, end, p, s, place)
  {
    hide RestAt, Position, NoStop;
    forall k: nat
      ensures RestAt(mem, end, p, k) == From(s, place, k)
    {
      PositionRest(mem, end, p, place, k);
      assert RestAt(mem, end, 16, place + k) == From(s, 0, place + k);
    }
  }

  // Nothing but zeros is left of the payload, or no byte was passed over.
  ghost predicate Exact(s: seq<byte>, loaded: nat, place: nat) {
    place == loaded || forall k: nat :: From(s, loaded, k) == 0
  }

  /** Two places in the payload look the same exactly if they are the same or there are only zeros. */
  lemma ExactMeans(s: seq<byte>, loaded: nat, place: nat)
    requires loaded <= place
    ensures Exact(s, loaded, place) <==> forall k: nat :: From(s, place, k) == From(s, loaded, k)
  {
    if Exact(s, loaded, place) {
      forall k: nat
        ensures From(s, place, k) == From(s, loaded, k)
      {
        assert From(s, place, k) == From(s, loaded, place - loaded + k);
      }
    } else if forall k: nat :: From(s, place, k) == From(s, loaded, k) {
      forall k: nat
        ensures From(s, loaded, k) == 0
      {
        Repeats(s, loaded, place, k);
      }
    }
  }

  lemma {:induction false} Repeats(s: seq<byte>, loaded: nat, place: nat, k: nat)
    requires loaded < place && forall j: nat :: From(s, place, j) == From(s, loaded, j)
    ensures From(s, loaded, k) == 0
    decreases if k < |s| then |s| - k else 0
  {
    if k < |s| {
      Repeats(s, loaded, place, k + (place - loaded));
      assert From(s, place, k) == From(s, loaded, k + (place - loaded));
    }
  }

  // Where the reader stands: the end of what it sees, CPB, and the payload bytes it takes to be before CPB.
  datatype Cursor = Cursor(end: nat, CPB: nat, place: nat)

  // The lane behind n bytes that are not flagged, from lane t on.
  function Taken(esc: seq<bool>, n: nat, t: nat): (u: nat)
    requires t <= |esc|
    ensures t <= u <= |esc|
    decreases |esc| - t
  {
    if n == 0 || t == |esc| then t else Taken(esc, if esc[t] then n else n - 1, t + 1)
  }

  lemma {:induction false} TakenIs(esc: seq<bool>, n: nat, t: nat, u: nat)
    requires t <= u <= |esc| && n + Flags(esc, t, u) == u - t && (t < u ==> !esc[u - 1])
    ensures Taken(esc, n, t) == u
    decreases u - t
  {
    if t < u {
      FlagsSplit(esc, t, t + 1, u);
      assert Flags(esc, t, t) == 0;
      TakenIs(esc, if esc[t] then n else n - 1, t + 1, u);
    }
  }

  // The escapes at or behind the stop among the first t lanes: each is passed over without holding a place.
  function Surplus(v: seq<byte>, t: nat): nat
    requires |v| == 16 && t <= 16
  {
    Flags(Escapes(v), Min(StopLane(v), t), t)
  }

  /** What get_bytes does to the cursor. */
  ghost function Step(mem: seq<byte>, c: Cursor, n: nat): Cursor
    requires 14 <= c.end <= |mem| && |mem| % 16 == 0 && 2 <= c.CPB
  {
    if c.CPB >= c.end + 2 then Cursor(c.end, c.CPB + n, c.place + n)
    else StepWindow(c, Load(mem, c.end, c.CPB), n)
  }

  ghost function StepWindow(c: Cursor, v: seq<byte>, n: nat): Cursor
    requires |v| == 16 && 2 <= c.CPB
  {
    var i, t := StopLane(v), Taken(Escapes(v), n, 0);
    var end := if i < 16 && First(EscapeLanes(v)) < 8 then c.CPB + i - 2 else c.end;
    Cursor(end, c.CPB + t, c.place + n + Surplus(v, t))
  }

  // The first a lanes of x are the bytes from p on in the memory cut at newEnd, esc flags the escapes below b.
  ghost predicate Window(mem: seq<byte>, newEnd: nat, p: nat, x: seq<byte>, esc: seq<bool>, b: nat, a: nat)
    requires newEnd <= |mem| && 2 <= p
  {
    && |x| == |esc| == 16 && a <= 14
    && (forall u | 0 <= u < a :: Lane(mem, newEnd, p, x, esc, u))
    && (forall u | 0 <= u < a :: esc[u] && u < b <==> EscapeAt(mem, newEnd, p + u))
  }

  lemma Narrower(mem: seq<byte>, end: nat, p: nat, x: seq<byte>, esc: seq<bool>, b: nat, a: nat, c: nat)
    requires end <= |mem| && 2 <= p && Window(mem, end, p, x, esc, b, a) && c <= a
    ensures Window(mem, end, p, x, esc, b, c)
  {
  }

  lemma FastWindow(mem: seq<byte>, end: nat, p: nat, v: seq<byte>, x: seq<byte>, esc: seq<bool>, b: nat)
    requires end <= |mem| && 2 <= p && Loaded(mem, end, p, v)
    requires forall t | 0 <= t < 8 :: !EscapeLanes(v)[t]
    requires |esc| == 16 == |x| && forall t | 0 <= t < 16 :: esc[t] <==> Escaped(v, t)
    requires forall t | 0 <= t < 14 :: x[t] == v[t + 2]
    ensures Window(mem, end, p, x, esc, b, 8) && forall t | 0 <= t < 8 :: !esc[t]
  {
    forall t | 0 <= t < 8
      ensures Lane(mem, end, p, x, esc, t) && !esc[t] && !EscapeAt(mem, end, p + t)
    {
      assert !EscapeLanes(v)[t];
      WindowFlagged(mem, end, p, v, esc, t);
      LanesFlag(mem, end, p, v, t);
    }
  }

  lemma SlowWindow(mem: seq<byte>, end: nat, p: nat, v: seq<byte>, x: seq<byte>, esc: seq<bool>, i: nat, newEnd: nat)
    requires 14 <= end <= |mem| && 16 <= p < end + 2 && Loaded(mem, end, p, v)
    requires |esc| == 16 == |x| && i <= 16 && newEnd == if i < 16 then p + i - 2 else end
    requires forall t | 0 <= t < 16 :: esc[t] <==> Escaped(v, t)
    requires forall t | 0 <= t < 14 :: x[t] == if t < i then v[t + 2] else 0
    requires newEnd <= end && (i < 16 ==> Stopped(v, i))
    requires forall t | 0 <= t < i :: !Stopped(v, t)
    ensures Window(mem, newEnd, p, x, esc, i, 14)
  {
    forall t | 0 <= t < 14
      ensures Lane(mem, newEnd, p, x, esc, t)
      ensures esc[t] && t < i <==> EscapeAt(mem, newEnd, p + t)
    {
      LanesFlag(mem, end, p, v, t);
      if i < 16 {
        CutFlagged(mem, end, p, v, esc, x, i, t);
        CutEscape(mem, end, p, v, i, t);
      } else {
        WindowFlagged(mem, end, p, v, esc, t);
      }
    }
  }

  // The escapes of the memory cut at stop i.
  lemma CutEscape(mem: seq<byte>, end: nat, p: nat, v: seq<byte>, i: nat, t: nat)
    requires 14 <= end <= |mem| && 16 <= p < end + 2 && Loaded(mem, end, p, v) && i < 16 && t < 14
    requires Stopped(v, i) && p + i - 2 <= end
    ensures Escaped(v, t) && t < i <==> EscapeAt(mem, p + i - 2, p + t)
  {
    LanesFlag(mem, end, p, v, t);
    assert v[i] == 0 && v[i + 1] == 0;
  }

  /** Moving the end to the first stop of the window. */
  lemma Cut(mem: seq<byte>, end0: nat, end: nat, p: nat, s: seq<byte>, loaded: nat, place: nat, v: seq<byte>, i: nat)
    requires Reached(mem, end0, end, p, s, loaded, place) && p < end + 2 && Loaded(mem, end, p, v)
    requires Stopped(v, i) && forall t | 0 <= t < i :: !Stopped(v, t)
    ensures p + i - 2 <= end && Reached(mem, end0, p + i - 2, p, s, loaded, place)
  {
    hide RestAt, Position;
    var newEnd := p + i - 2;
    StopCuts(mem, end, p, v, i);
    assert Points(mem, newEnd, p, s, loaded);
    forall k: nat
      ensures RestAt(mem, newEnd, 16, k) == From(s, 0, k)
    {
      CutBehind(mem, end, p, v, i, k);
      assert RestAt(mem, end, 16, k) == From(s, 0, k);
    }
    forall q | 16 <= q < p
      ensures EscapeAt(mem, end, q) <==> EscapeAt(mem, newEnd, q)
    {
    }
    PositionCut(mem, end, newEnd, p, place);
    forall q | 16 <= q < p
      ensures !StopAt(mem, newEnd, q)
    {
      assert !StopAt(mem, end, q);
    }
  }

  lemma CutBehind(mem: seq<byte>, end: nat, p: nat, v: seq<byte>, i: nat, k: nat)
    requires 14 <= end <= |mem| && 16 <= p < end + 2 && Loaded(mem, end, p, v) && NoStop(mem, end, p)
    requires Stopped(v, i) && forall t | 0 <= t < i :: !Stopped(v, t)
    ensures p + i - 2 <= end && RestAt(mem, p + i - 2, 16, k) == RestAt(mem, end, 16, k)
  {
    hide RestAt;
    StopCuts(mem, end, p, v, i);
    assert v[i] == Seen(mem, end, p - 2 + i) && v[i + 1] == Seen(mem, end, p - 2 + (i + 1));
    LanesFlag(mem, end, p, v, i);
    forall q | 16 <= q < p + i
      ensures !StopAt(mem, end, q)
    {
      if q >= p {
        LanesFlag(mem, end, p, v, q - p);
      }
    }
    Truncate(mem, end, p + i - 2, 16, k);
  }

  // Without a 00 00 03 behind a stop no escape is flagged behind it.
  lemma TidyWindow(mem: seq<byte>, end0: nat, end: nat, p: nat, v: seq<byte>, i: nat, t: nat)
    requires end <= end0 <= |mem| && 16 <= p && Loaded(mem, end, p, v) && Tidy(mem, end0)
    requires i <= t < 14 && Stopped(v, i)
    ensures !Escaped(v, t)
  {
    LanesFlag(mem, end, p, v, i);
    LanesFlag(mem, end, p, v, t);
    assert p + i < end ==> StopAt(mem, end0, p + i);
    assert Escaped(v, t) ==> EscapeAt(mem, end0, p + t);
  }

  lemma {:induction false} NoFlags(esc: seq<bool>, t: nat, u: nat)
    requires t <= u <= |esc| && forall i | t <= i < u :: !esc[i]
    ensures Flags(esc, t, u) == 0
  {
    if t < u {
      NoFlags(esc, t, u - 1);
    }
  }

  lemma TidySurplus(mem: seq<byte>, end0: nat, end: nat, p: nat, v: seq<byte>, a: nat)
    requires end <= end0 <= |mem| && 16 <= p && |v| == 16 && Loaded(mem, end, p, v) && Tidy(mem, end0) && a <= 14
    ensures Surplus(v, a) == 0
  {
    hide Flags, Tidy, Stopped, Escaped, Loaded;
    forall t | Min(a, StopLane(v)) <= t < a
      ensures !Escapes(v)[t]
    {
      TidyWindow(mem, end0, end, p, v, StopLane(v), t);
    }
    NoFlags(Escapes(v), Min(a, StopLane(v)), a);
  }

  /** Taking the first a lanes of a window, in which d escapes from lane b on are no escapes of the payload. */
  lemma Took(mem: seq<byte>, end0: nat, newEnd: nat, p: nat, s: seq<byte>, loaded: nat, place: nat,
             x: seq<byte>, esc: seq<bool>, b: nat, a: nat, d: nat)
    requires Reached(mem, end0, newEnd, p, s, loaded, place)
    requires Window(mem, newEnd, p, x, esc, b, a) && 0 < a && !esc[a - 1]
    requires Strip(x, esc, a) != [] && d == Flags(esc, Min(a, b), a) && (Tidy(mem, end0) ==> d == 0)
    ensures Reached(mem, end0, newEnd, p + a, s, loaded + |Strip(x, esc, a)|, place + |Strip(x, esc, a)| + d)
    ensures forall j: nat | j < |Strip(x, esc, a)| :: Strip(x, esc, a)[j] == From(s, loaded, j)
  {
    hide Points, Strip, Position, RestAt, StopAt, EscapeAt, Advance, Flags;
    var n, m := |Strip(x, esc, a)|, Min(a, b);
    Take(mem, newEnd, p, s, loaded, x, esc, a);
    StripCount(x, esc, a);
    FlagsSplit(esc, 0, m, a);
    ConsumePosition(mem, newEnd, p, esc, b, a);
    assert a - Flags(esc, 0, m) == n + d;
    PositionNext(mem, newEnd, p, place, n + d);
    assert place + (n + d) == place + n + d;
    PassedStops(mem, newEnd, p, x, esc, a);
  }

  lemma PassedStops(mem: seq<byte>, end: nat, p: nat, x: seq<byte>, esc: seq<bool>, a: nat)
    requires end <= |mem| && 2 <= p && a <= |x| && a <= |esc| && NoStop(mem, end, p)
    requires forall u | 0 <= u < a :: Lane(mem, end, p, x, esc, u)
    ensures NoStop(mem, end, p + a)
  {
    forall q | 16 <= q < p + a
      ensures !StopAt(mem, end, q)
    {
      if q >= p {
        assert Lane(mem, end, p, x, esc, q - p);
      }
    }
  }

  lemma Slow(mem: seq<byte>, end0: nat, end: nat, p: nat, s: seq<byte>, loaded: nat, place: nat,
             v: seq<byte>, x: seq<byte>, i: nat)
    requires Reached(mem, end0, end, p, s, loaded, place) && p < end + 2 && Loaded(mem, end, p, v)
    requires |v| == 16 == |x| && i == StopLane(v) && forall t | 0 <= t < 14 :: x[t] == if t < i then v[t + 2] else 0
    ensures var newEnd := if i < 16 then p + i - 2 else end;
            && 14 <= newEnd <= end && Reached(mem, end0, newEnd, p, s, loaded, place)
            && Window(mem, newEnd, p, x, Escapes(v), i, 14)
  {
    hide Points, Position, Tidy, Window, Stopped, Escaped;
    if i < 16 {
      Cut(mem, end0, end, p, s, loaded, place, v, i);
    }
    SlowWindow(mem, end, p, v, x, Escapes(v), i, if i < 16 then p + i - 2 else end);
  }

  lemma TookBytes(mem: seq<byte>, end0: nat, end: nat, newEnd: nat, p: nat, s: seq<byte>, loaded: nat, place: nat,
                  v: seq<byte>, x0: seq<byte>, x: seq<byte>, n: nat, c: nat)
    requires Reached(mem, end0, newEnd, p, s, loaded, place) && end <= end0 && Loaded(mem, end, p, v)
    requires |v| == 16 == |x0| && Window(mem, newEnd, p, x0, Escapes(v), StopLane(v), 14)
    requires newEnd == (if StopLane(v) < 16 then p + StopLane(v) - 2 else end) && First(EscapeLanes(v)) < 8
    requires 0 < n && n + c <= 14 && !Escapes(v)[n + c - 1] && n <= |x| && x[..n] == Strip(x0, Escapes(v), n + c)
    ensures var next := StepWindow(Cursor(end, p, place), v, n);
            && next.end == newEnd && next.CPB == p + (n + c)
            && Reached(mem, end0, newEnd, p + (n + c), s, loaded + n, next.place)
    ensures forall j: nat | j < n :: x[j] == From(s, loaded, j)
  {
    hide Points, Strip, Position, Flags, Tidy, EscapeAt, Stopped, Escaped, Taken, Loaded, NoStop, Lane, Window;
    hide StopLane, Escapes, First, EscapeLanes;
    var esc, a := Escapes(v), n + c;
    assert |x[..n]| == n;
    StripCount(x0, esc, a);
    TakenIs(esc, n, 0, a);
    if Tidy(mem, end0) {
      TidySurplus(mem, end0, end, p, v, a);
    }
    Narrower(mem, newEnd, p, x0, esc, StopLane(v), 14, a);
    Took(mem, end0, newEnd, p, s, loaded, place, x0, esc, StopLane(v), a, Surplus(v, a));
    assert forall j: nat | j < n :: x[j] == x[..n][j];
  }

  lemma FastBytes(mem: seq<byte>, end0: nat, end: nat, p: nat, s: seq<byte>, loaded: nat, place: nat,
                  v: seq<byte>, x: seq<byte>, n: nat)
    requires Reached(mem, end0, end, p, s, loaded, place) && Loaded(mem, end, p, v) && 0 < n <= 8
    requires First(EscapeLanes(v)) >= 8
    requires |x| == 16 && forall t | 0 <= t < 14 :: x[t] == v[t + 2]
    ensures var next := StepWindow(Cursor(end, p, place), v, n);
            && next.end == end && next.CPB == p + n
            && Reached(mem, end0, end, p + n, s, loaded + n, next.place)
    ensures forall j: nat | j < n :: x[j] == From(s, loaded, j)
  {
    hide Points, Flagged, Flags, Stopped, Escaped, Taken, EscapeLanes, Position, NoStop;
    var esc := Escapes(v);
    FastWindow(mem, end, p, v, x, esc, 16);
    StripUnflagged(x, esc, 0, n);
    NoFlags(esc, 0, n);
    NoFlags(esc, n, n);
    TakenIs(esc, n, 0, n);
    StopBehind(v, n);
    Took(mem, end0, end, p, s, loaded, place, x, esc, 16, n, 0);
    assert forall j: nat | j < n :: x[j] == Strip(x, esc, n)[j];
  }

  lemma StopBehind(v: seq<byte>, n: nat)
    requires |v| == 16 && n <= 8 && forall t | 0 <= t < 8 :: !EscapeLanes(v)[t]
    ensures StopLane(v) >= n
  {
    forall t | 0 <= t < n
      ensures !Stopped(v, t)
    {
      assert !EscapeLanes(v)[t];
    }
  }

  lemma Past(mem: seq<byte>, end0: nat, end: nat, p: nat, s: seq<byte>, loaded: nat, place: nat, n: nat)
    requires Reached(mem, end0, end, p, s, loaded, place) && end + 2 <= p && 0 < n
    ensures Reached(mem, end0, end, p + n, s, loaded + n, place + n)
    ensures ReadBytes(s, loaded, n) == 0
  {
    hide Position, RestAt;
    Nothing(mem, end, p, s, loaded, n);
    AdvancePast(mem, end, p, n);
    PositionNext(mem, end, p, place, n);
  }

  // clz(msb | 1 << 32)
  function OrHalf(msb: nat): nat {
    if msb / 0x1_0000_0000 % 2 == 1 then msb else msb + 0x1_0000_0000
  }

  // The code at bit q starts with lz zeros and a one (clause 9.1).
  ghost predicate Prefix(s: seq<byte>, q: nat, lz: nat) {
    (forall i | q <= i < q + lz :: BitAt(s, i) == 0) && BitAt(s, q + lz) == 1
  }

  lemma {:induction false} ZeroBits(s: seq<byte>, q: nat, n: nat)
    ensures ReadBits(s, q, n) == 0 <==> forall i | q <= i < q + n :: BitAt(s, i) == 0
  {
    if n == 0 {
    } else {
      ZeroBits(s, q, n - 1);
    }
  }

  /** The lz of a code is where its first 64 bits have their leading one. */
  lemma PrefixBounds(s: seq<byte>, q: nat, lz: nat, w: nat)
    requires lz < w && Prefix(s, q, lz)
    ensures Pow2(w - 1 - lz) <= ReadBits(s, q, w) < Pow2(w - lz)
  {
    PrefixOne(s, q, lz);
    ReadBitsConcat(s, q, lz + 1, w - 1 - lz);
  }

  lemma Pow2Even(k: nat)
    ensures Pow2(k) == 1 || Pow2(k) % 2 == 0
  {
    if k > 0 {
      assert Pow2(k) == 2 * Pow2(k - 1);
    }
  }

  lemma OrHalfBounds(msb: nat, lz: nat, h: nat)
    requires lz <= 31 && h == 32 && Pow2(63 - lz) <= msb < Pow2(64 - lz)
    ensures Pow2(63 - lz) <= OrHalf(msb) < Pow2(64 - lz)
  {
    hide OrHalf, Pow2;
    Pow2Half(h);
    Pow2Add(31 - lz, h);
    Pow2Even(31 - lz);
    Pow2Step(63 - lz);
    var p := Pow2(31 - lz);
    assert 31 - lz + h == 63 - lz;
    OrBelow(msb, p, 0x1_0000_0000);
  }

  lemma OrBelow(msb: nat, p: nat, h: nat)
    requires p > 0 && h == 0x1_0000_0000 && p * h <= msb < 2 * (p * h) && (p == 1 || p % 2 == 0)
    ensures p * h <= OrHalf(msb) < 2 * (p * h)
  {
    var d := msb / h;
    assert msb == d * h + msb % h;
    if d < p { MulLess(d, p, h); }
    if 2 * p <= d {
      if 2 * p < d { MulLess(2 * p, d, h); }
    }
    assert p <= d < 2 * p;
    if d % 2 == 0 {
      assert d + 1 < 2 * p;
      MulLess(d + 1, 2 * p, h);
    }
  }

  lemma Fits(s: seq<byte>, q: nat, n: nat, msb: nat)
    requires Drained(s, q, n, msb)
    ensures n < 64
  {
  }

  lemma FreshBits(s: seq<byte>, k: nat, bytes: nat, w: nat)
    requires w == 8 && Shr(bytes, 8 * (w - w)) == ReadBytes(s, k, w)
    ensures bytes == ReadBits(s, 8 * k, 8 * w)
  {
    BytesAreBits(s, k, w);
  }

  // The codeNum of a code of lz leading zeros (clause 9.1).
  function CodeNum(s: seq<byte>, q: nat, lz: nat): nat {
    Pow2(lz) - 1 + ReadBits(s, q + lz + 1, lz)
  }

  // The value of codeNum k in a signed code (clause 9.1.1).
  function Signed(k: nat): int {
    if k % 2 == 1 then (k + 1) / 2 else -(k / 2)
  }

  // The expression of get_se16 for it.
  function SignedOf(ue: nat): (x: int)
    ensures x == Signed(ue)
    ensures ue < 0xFFFF_FFFF ==> Int32(x) == x
  {
    var half: int := ue / 2;
    if ue % 2 == 1 then half + 1 else -half
  }

  // Conversion to unsigned.
  function Unsigned32(x: int): nat {
    x % 0x1_0000_0000
  }

  /** The length of a code, from the upper word of the cache. */
  function CodeLength(msb: nat): (v: nat)
    requires msb < WORD
    ensures 1 <= v <= 63
  {
    HalfLength(msb, 64, 32);
    Clz(OrHalf(msb), 64) * 2 + 1
  }

  lemma HalfLength(msb: nat, n: nat, h: nat)
    requires msb < WORD && n == 64 && h == 32
    ensures OrHalf(msb) < Pow2(n) && Clz(OrHalf(msb), n) <= 31
  {
    Pow2Word(n);
    Pow2Half(h);
    var x := OrHalf(msb);
    if msb / 0x1_0000_0000 % 2 == 0 {
      OrFits(msb, 0x1_0000_0000);
    }
    ClzBound(x, n, 31);
  }

  lemma OrFits(msb: nat, h: nat)
    requires h == 0x1_0000_0000 && msb < h * h && msb / h % 2 == 0
    ensures msb + h < h * h && msb + h >= h
  {
    var d := msb / h;
    assert msb == d * h + msb % h;
    if d >= h {
      if d > h { MulLess(h, d, h); }
    }
    assert d + 1 < h;
    MulLess(d + 1, h, h);
  }

  lemma {:induction false} ClzBound(x: nat, n: nat, z: nat)
    requires z < n && x < Pow2(n) && x >= Pow2(n - 1 - z)
    ensures Clz(x, n) <= z
  {
    if z == 0 {
    } else if x < Pow2(n - 1) {
      ClzBound(x, n - 1, z - 1);
    }
  }

  /** clz finds the leading zeros of a code, up to 31. */
  lemma PrefixLength(s: seq<byte>, q: nat, msb: nat, lz: nat, n: nat)
    requires n == 64 && msb < WORD && msb == ReadBits(s, q, n) && lz <= 31 && Prefix(s, q, lz)
    ensures CodeLength(msb) == 2 * lz + 1
  {
    PrefixBounds(s, q, lz, n);
    OrHalfBounds(msb, lz, n / 2);
    ClzOf(OrHalf(msb), n, lz);
  }

  lemma PrefixOne(s: seq<byte>, q: nat, lz: nat)
    requires Prefix(s, q, lz)
    ensures ReadBits(s, q, lz + 1) == 1
  {
    ZeroBits(s, q, lz);
  }

  lemma PrefixCode(s: seq<byte>, q: nat, lz: nat, m: nat)
    requires Prefix(s, q, lz) && lz < m && m == 32
    ensures 0 <= ReadBits(s, q, 2 * lz + 1) - 1 == CodeNum(s, q, lz) < 0xFFFF_FFFF
  {
    hide Prefix, Pow2, ReadBits;
    PrefixOne(s, q, lz);
    ReadBitsConcat(s, q, lz + 1, lz);
    assert lz + 1 + lz == 2 * lz + 1;
    assert 1 * Pow2(lz) == Pow2(lz);
    CodeBelow(s, q + lz + 1, lz, m);
  }

  lemma CodeBelow(s: seq<byte>, q: nat, lz: nat, m: nat)
    requires lz < m && m == 32
    ensures Pow2(lz) - 1 + ReadBits(s, q, lz) < 0xFFFF_FFFF
  {
    Pow2Monotone(lz, m - 1);
    Pow2Half(m);
  }

  lemma {:induction false} Pow2Monotone(a: nat, b: nat)
    requires a <= b
    ensures Pow2(a) <= Pow2(b)
  {
    if a < b {
      Pow2Monotone(a, b - 1);
    }
  }

  // The loop of clause 9.1 that counts leading zero bits, up to m.
  function LeadingZeros(s: seq<byte>, q: nat, m: nat): (lz: nat)
    ensures lz <= m
    decreases m
  {
    if m == 0 || BitAt(s, q) == 1 then 0 else 1 + LeadingZeros(s, q + 1, m - 1)
  }

  lemma {:induction false} LeadingZerosPrefix(s: seq<byte>, q: nat, m: nat)
    ensures var lz := LeadingZeros(s, q, m);
            if lz < m then Prefix(s, q, lz) else forall i | q <= i < q + m :: BitAt(s, i) == 0
    decreases m
  {
    if m == 0 || BitAt(s, q) == 1 {
    } else {
      LeadingZerosPrefix(s, q + 1, m - 1);
    }
  }

  /** A longer code is read as 63 bits. */
  lemma LongPrefix(s: seq<byte>, q: nat, msb: nat, h: nat, n: nat)
    requires n == 64 && h == 32 && msb < WORD && msb == ReadBits(s, q, n)
    requires forall i | q <= i < q + h :: BitAt(s, i) == 0
    ensures CodeLength(msb) == 63
  {
    hide ReadBits, Clz;
    ZeroBits(s, q, h);
    ReadBitsConcat(s, q, h, n - h);
    Pow2Half(h);
    assert 0 * Pow2(n - h) == 0;
    assert msb < 0x1_0000_0000;
    LongHalf(msb, h);
    ClzOf(OrHalf(msb), n, h - 1);
  }

  lemma LongHalf(msb: nat, h: nat)
    requires msb < 0x1_0000_0000 && h == 32
    ensures Pow2(h) <= OrHalf(msb) < Pow2(h + 1)
  {
    Pow2Half(h);
  }

  // Length of the code at q: 2 lz + 1 bits, cut after 2 m - 1 bits if it has m leading zeros or more.
  function CodeBits(s: seq<byte>, q: nat, m: nat): nat
    requires m > 0
  {
    var lz := LeadingZeros(s, q, m);
    if lz < m then 2 * lz + 1 else 2 * m - 1
  }

  /** The codeNum at q; a code of m leading zeros or more is read as the first 2 m - 1 of its bits. */
  function CodeValue(s: seq<byte>, q: nat, m: nat): nat
    requires m > 0
  {
    var lz := LeadingZeros(s, q, m);
    if lz < m then CodeNum(s, q, lz) else Unsigned32(ReadBits(s, q, 2 * m - 1) - 1)
  }

  /** Signed codes of less than 32 leading zeros are within an int. */
  lemma SignedInRange(s: seq<byte>, q: nat, m: nat)
    requires m == 32 && LeadingZeros(s, q, m) < m
    ensures 0 <= CodeValue(s, q, m) < 0xFFFF_FFFF
    ensures Int32(Signed(CodeValue(s, q, m))) == Signed(CodeNum(s, q, LeadingZeros(s, q, m)))
  {
    hide ReadBits, CodeNum, Prefix;
    LeadingZerosPrefix(s, q, m);
    PrefixCode(s, q, LeadingZeros(s, q, m), m);
    assert SignedOf(CodeValue(s, q, m)) == Signed(CodeValue(s, q, m));
  }

  /** The code of k, which writes k + 1 in 2 lz + 1 bits for the lz that halves them, is read as k. */
  lemma UnsignedRoundTrip(s: seq<byte>, q: nat, k: nat, lz: nat, m: nat)
    requires m == 32 && lz < m && Pow2(lz) <= k + 1 < 2 * Pow2(lz) && ReadBits(s, q, 2 * lz + 1) == k + 1
    ensures CodeBits(s, q, m) == 2 * lz + 1 && CodeValue(s, q, m) == k
  {
    hide ReadBits, CodeNum, Pow2;
    LeadingUnique(s, q, k, lz, m);
  }

  lemma WrittenPrefix(s: seq<byte>, q: nat, x: nat, lz: nat)
    requires Pow2(lz) <= x < 2 * Pow2(lz) && ReadBits(s, q, 2 * lz + 1) == x
    ensures Prefix(s, q, lz)
  {
    hide ReadBits, Pow2;
    assert lz + 1 + lz == 2 * lz + 1;
    ReadBitsConcat(s, q, lz + 1, lz);
    ReadBitsStep(s, q, lz);
    var top, low, p := ReadBits(s, q, lz + 1), ReadBits(s, q + lz + 1, lz), Pow2(lz);
    assert top == 0 ==> top * p == 0;
    if top > 1 { MulLess(1, top, p); }
    ZeroBits(s, q, lz);
  }

  lemma PrefixUnique(s: seq<byte>, q: nat, lz: nat, other: nat, m: nat)
    requires Prefix(s, q, lz) && lz < m && other <= m
    requires if other < m then Prefix(s, q, other) else forall i | q <= i < q + m :: BitAt(s, i) == 0
    ensures other == lz
  {
    assert BitAt(s, q + lz) == 1;
    assert other < m ==> BitAt(s, q + other) == 1;
  }

  /** The signed code of v, which is that of 2 v - 1 for v > 0 and of -2 v otherwise, is read as v. */
  lemma SignedRoundTrip(s: seq<byte>, q: nat, v: int, lz: nat, m: nat)
    requires m == 32 && lz < m
    requires var k := if v > 0 then 2 * v - 1 else -2 * v;
             Pow2(lz) <= k + 1 < 2 * Pow2(lz) && ReadBits(s, q, 2 * lz + 1) == k + 1
    ensures CodeBits(s, q, m) == 2 * lz + 1 && Signed(CodeValue(s, q, m)) == v
    ensures Int32(Signed(CodeValue(s, q, m))) == v
  {
    hide ReadBits, Pow2, CodeNum, CodeValue, CodeBits, Signed, Int32;
    var k: int := if v > 0 then 2 * v - 1 else -2 * v;
    UnsignedRoundTrip(s, q, k, lz, m);
    LeadingUnique(s, q, k, lz, m);
    SignedInRange(s, q, m);
    SignedMeans(v);
  }

  lemma SignedMeans(v: int)
    ensures Signed(if v > 0 then 2 * v - 1 else -2 * v) == v
  {
  }

  lemma LeadingUnique(s: seq<byte>, q: nat, k: nat, lz: nat, m: nat)
    requires m == 32 && lz < m && Pow2(lz) <= k + 1 < 2 * Pow2(lz) && ReadBits(s, q, 2 * lz + 1) == k + 1
    ensures LeadingZeros(s, q, m) == lz && CodeNum(s, q, lz) == k
  {
    hide ReadBits, CodeNum, Pow2;
    WrittenPrefix(s, q, k + 1, lz);
    LeadingZerosPrefix(s, q, m);
    PrefixUnique(s, q, lz, LeadingZeros(s, q, m), m);
    PrefixCode(s, q, lz, m);
  }

  lemma Start(mem: seq<byte>, end0: nat)
    requires Memory(mem, end0)
    ensures Reached(mem, end0, end0, 16, Payload(mem[16..end0], 0), 0, 0)
  {
    assert 16 >= end0 ==> mem[16..end0] == [];
    assert Points(mem, end0, 16, Payload(mem[16..end0], 0), 0);
  }

  lemma EmptyCache(s: seq<byte>, msb: nat, h: nat)
    requires msb == 0x8000_0000_0000_0000 && h == 63
    ensures Drained(s, 0, 0, msb)
  {
    Pow2Word(h + 1);
  }

  /** The first byte leaves the cache, and the lower word, which held the sentinel only, is dropped. */
  lemma Header(s: seq<byte>, n: nat, msb: nat, lsb: nat, w: nat, c: nat)
    requires c == 8 && w == 64 == n && Cached(s, 0, n, msb, lsb)
    ensures Drained(s, c, n - c, Shl(msb, c) + 0x80)
  {
    hide Drained, Run, ReadBits, Word;
    CacheHigh(s, 0, n, msb, lsb, w);
    assert c + (n - c) == n;
    ReadBitsSplit(s, 0, c, n - c);
    var r := ReadBits(s, c, n - c);
    Pow2Word(w);
    SplitWord(msb, c);
    Pow2Byte(c);
    assert Shl(msb, c) + 0x80 == (2 * r + 1) * 0x80;
    HeaderWord(s, c, n - c, r, w);
  }

  lemma HeaderWord(s: seq<byte>, q: nat, n: nat, r: nat, w: nat)
    requires n == 56 && w == 64 && r == ReadBits(s, q, n)
    ensures Drained(s, q, n, (2 * r + 1) * 0x80)
  {
    hide ReadBits;
    Pow2Byte(63 - n + 1);
    assert Pow2(63 - n) == 0x80;
    WordSplit(w - n, n);
  }

  class GetBits {
    const mem: seq<byte>
    const end0: nat
    var CPB: nat
    var end: nat
    var msbCache: nat
    var lsbCache: nat
    ghost var loaded: nat // payload bytes taken so far
    ghost var place: nat // payload bytes before CPB
    ghost var pos: nat // payload bits read so far

    ghost function Source(): seq<byte>
      requires Memory(mem, end0)
    {
      Payload(mem[16..end0], 0)
    }

    ghost function Here(): Cursor
      reads this`CPB, this`end, this`place
    {
      Cursor(end, CPB, place)
    }

    ghost predicate ValidPlace()
      reads this`CPB, this`end, this`place
    {
      Memory(mem, end0) && Placed(mem, end0, end, CPB, Source(), place)
    }

    ghost predicate ValidSource()
      reads this`CPB, this`end, this`loaded, this`place
    {
      Memory(mem, end0) && Reached(mem, end0, end, CPB, Source(), loaded, place)
    }

    /** Takes the escapes and the stop, if any, out of the 16 bytes v seen from two before CPB on. */
    method Clean(v: seq<byte>, nbytes: nat) returns (x: seq<byte>, c: nat)
      requires ValidSource() && 1 <= nbytes <= 8 && CPB < end + 2 && |v| == 16 && Loaded(mem, end, CPB, v)
      modifies this`end
      ensures var next := StepWindow(old(Here()), v, nbytes);
              && next.end == end && next.CPB == CPB + (nbytes + c)
              && Reached(mem, end0, end, CPB + (nbytes + c), Source(), loaded + nbytes, next.place)
      ensures |x| == 16 && forall j: nat | j < nbytes :: x[j] == From(Source(), loaded, j)
    {
      hide Points, Position, NoStop, Apart, Window, Escaped, Stopped, EscapeLanes, StepWindow, Tidy, Loaded, Strip;
      ghost var oldEnd := end;
      x, c := v[2..] + Zeros(2), 0;
      if First(EscapeLanes(v)) < 8 {
        var i := StopLane(v);
        ghost var x0 := Below(x, i);
        Slow(mem, end0, end, CPB, Source(), loaded, place, v, x0, i);
        if i < 16 {
          end := CPB + i - 2;
        }
        x, c := RemoveEscapes(Below(x, i), Escapes(v), nbytes);
        TookBytes(mem, end0, oldEnd, end, CPB, Source(), loaded, place, v, x0, x, nbytes, c);
      } else {
        FastBytes(mem, end0, end, CPB, Source(), loaded, place, v, x, nbytes);
      }
    }

    /** The next nbytes payload bytes, in the upper bytes of a word. */
    method GetBytes(nbytes: nat) returns (r: nat)
      requires ValidSource() && 1 <= nbytes <= 8
      modifies this`CPB, this`end, this`loaded, this`place
      ensures ValidSource() && loaded == old(loaded) + nbytes && Here() == Step(mem, old(Here()), nbytes)
      ensures r < WORD && Shr(r, 8 * (8 - nbytes)) == ReadBytes(Source(), old(loaded), nbytes)
    {
      hide Points, Load, Loaded, Tidy, Position, NoStop, StepWindow, Payload, ReadBytes, BigEndian;
      if CPB >= end + 2 {
        Past(mem, end0, end, CPB, Source(), loaded, place, nbytes);
        CPB, place, loaded := CPB + nbytes, place + nbytes, loaded + nbytes;
        return 0;
      }
      ghost var next := StepWindow(Here(), Load(mem, end, CPB), nbytes);
      var x, c := Clean(Load(mem, end, CPB), nbytes);
      CPB := CPB + (nbytes + c);
      place := next.place;
      r := BigEndian(x, 8);
      Leading(x, Source(), loaded, nbytes, 8);
      loaded := loaded + nbytes;
    }

    // Bits read so far are those before pos.
    ghost predicate Valid()
      reads this
    {
      ValidSource() && pos <= 8 * loaded && lsbCache != 0 && Filled()
    }

    /** The setup of decode_NAL, which fills the cache. */
    constructor (m: seq<byte>, e: nat)
      requires Memory(m, e)
      ensures mem == m && end0 == e && Valid() && pos == 0 && loaded == 8
      ensures Here() == Step(m, Cursor(e, 16, 0), 8)
    {
      mem, end0, CPB, end := m, e, 16, e;
      msbCache, lsbCache := 0x8000_0000_0000_0000, 0;
      loaded, place, pos := 0, 0, 0;
      new;
      hide Payload, Cached, Points, Reached, Step;
      Start(m, e);
      EmptyCache(Source(), msbCache, 63);
      Refill();
    }

    /** The NAL unit header leaves the cache, which is filled again. */
    method SkipHeader()
      requires Valid() && pos == 0 && loaded == 8
      modifies this
      ensures Valid() && pos == 8 && loaded == 16
      ensures ValidPlace() && old(ValidPlace()) && Here() == Step(mem, old(Here()), 8)
    {
      hide Payload, Cached, Points, Placed, Shl, Step;
      Header(Source(), 8 * loaded, msbCache, lsbCache, 64, 8);
      msbCache, lsbCache, pos := Shl(msbCache, 8) + 0x80, 0, 8;
      Refill();
    }

    /** From a cursor and the bytes loaded then: 8 more were fetched exactly if fewer than 64 bits were left. */
    ghost predicate Moved(c: Cursor, l: nat)
      reads this
    {
      if 8 * l - pos >= 64 then Here() == c && loaded == l
      else
        && 14 <= c.end <= |mem| && |mem| % 16 == 0 && 2 <= c.CPB
        && Here() == Step(mem, c, 8) && loaded == l + 8
    }

    ghost predicate Filled()
      requires Memory(mem, end0) && pos <= 8 * loaded
      reads this
    {
      Cached(Source(), pos, 8 * loaded - pos, msbCache, lsbCache)
    }

    method Refill()
      requires ValidSource() && pos <= 8 * loaded && Drained(Source(), pos, 8 * loaded - pos, msbCache)
      modifies this
      ensures Valid() && pos == old(pos) && loaded == old(loaded) + 8
      ensures Here() == Step(mem, old(Here()), 8)
    {
      hide Payload, Points, Position, NoStop, Tidy, Step, Cached, Drained, Run, ReadBytes, ReadBits;
      hide Ctz, Shr, Shl, Word, RefillHigh, RefillLow;
      ghost var s, k, n := Source(), loaded, 8 * loaded - pos;
      Fits(s, pos, n, msbCache);
      var bytes := GetBytes(8);
      FreshBits(s, k, bytes, 8);
      CacheRefill(s, pos, n, msbCache, bytes, 64);
      var m := RefillHigh(msbCache, bytes);
      lsbCache := RefillLow(msbCache, bytes);
      msbCache := m;
      CacheLow(s, pos, n + 64, msbCache, lsbCache);
    }

    /** The common tail of the readers: the v bits read leave the cache. */
    method Drop(v: nat)
      requires Valid() && v < 64
      modifies this
      ensures Valid() && pos == old(pos) + v && Moved(old(Here()), old(loaded))
    {
      hide Points, Position, NoStop, Tidy, Payload, Run, ReadBits, Shr, Shl, Word, Shld, Step;
      CacheLow(Source(), pos, 8 * loaded - pos, msbCache, lsbCache);
      CacheRead(Source(), pos, 8 * loaded - pos, msbCache, lsbCache, v);
      msbCache, lsbCache := Shld(lsbCache, msbCache, v), Shl(lsbCache, v);
      pos := pos + v;
      assert 8 * loaded - pos == 8 * loaded - old(pos) - v;
      CacheLow(Source(), pos, 8 * loaded - pos, msbCache, lsbCache);
      if lsbCache == 0 {
        Refill();
      }
    }

    // The upper v bits of the cache are the next v bits.
    lemma Peek(v: nat)
      requires Valid() && v < 64
      ensures Shr(msbCache, 64 - v) == ReadBits(Source(), pos, v)
    {
      CacheLow(Source(), pos, 8 * loaded - pos, msbCache, lsbCache);
      CacheRead(Source(), pos, 8 * loaded - pos, msbCache, lsbCache, v);
    }

    lemma PeekWord(w: nat)
      requires Valid() && w == 64
      ensures msbCache < WORD && msbCache == ReadBits(Source(), pos, w)
    {
      CacheLow(Source(), pos, 8 * loaded - pos, msbCache, lsbCache);
      CacheHigh(Source(), pos, 8 * loaded - pos, msbCache, lsbCache, w);
    }

    method GetU1() returns (r: nat)
      requires Valid()
      modifies this
      ensures Valid() && pos == old(pos) + 1 && r == BitAt(Source(), old(pos))
      ensures Moved(old(Here()), old(loaded))
    {
      hide Moved;
      Peek(1);
      r := Shr(msbCache, 63);
      Drop(1);
    }

    method GetUv(v: nat) returns (r: nat)
      requires Valid() && 1 <= v <= 32
      modifies this
      ensures Valid() && pos == old(pos) + v && r == ReadBits(Source(), old(pos), v)
      ensures Moved(old(Here()), old(loaded))
    {
      hide Moved;
      Peek(v);
      r := Shr(msbCache, 64 - v);
      Drop(v);
    }

    /** The length of the code at pos, and its codeNum. */
    lemma Code(m: nat)
      requires Valid() && m == 32
      ensures var v := CodeLength(msbCache);
              && v == CodeBits(Source(), pos, m)
              && Unsigned32(Shr(msbCache, 64 - v) - 1) == CodeValue(Source(), pos, m)
    {
      hide Reached, Payload, Cached, Points, CodeLength, Clz, ReadBits, Shr, LeadingZeros, CodeNum, Prefix;
      PeekWord(2 * m);
      LeadingZerosPrefix(Source(), pos, m);
      var lz := LeadingZeros(Source(), pos, m);
      if lz < m {
        PrefixLength(Source(), pos, msbCache, lz, 2 * m);
        PrefixCode(Source(), pos, lz, m);
      } else {
        LongPrefix(Source(), pos, msbCache, m, 2 * m);
      }
      Peek(CodeLength(msbCache));
    }

    /** ue(v) of clause 9.1, clipped to upper. */
    method GetUe16(upper: nat) returns (r: nat)
      requires Valid() && upper < 0x1_0000_0000
      modifies this
      ensures Valid() && pos == old(pos) + CodeBits(Source(), old(pos), 32)
      ensures r == Min(CodeValue(Source(), old(pos), 32), upper)
      ensures Moved(old(Here()), old(loaded))
    {
      hide Moved, Reached, Payload, Cached, Points, Shr, CodeLength, CodeBits, CodeValue;
      PeekWord(64);
      Code(32);
      var v := CodeLength(msbCache);
      r := Min(Unsigned32(Shr(msbCache, 64 - v) - 1), upper);
      Drop(v);
    }

    /** se(v) of clause 9.1.1, clipped to lower and upper. */
    method GetSe16(lower: int, upper: int) returns (r: int)
      requires Valid()
      modifies this
      ensures Valid() && pos == old(pos) + CodeBits(Source(), old(pos), 32)
      ensures r == Clip3(lower, upper, Int32(Signed(CodeValue(Source(), old(pos), 32))))
      ensures Moved(old(Here()), old(loaded))
    {
      hide Moved;
      hide Int32, Signed, Clip3;
      hide Reached, Payload, Cached, Points, Shr, CodeLength, CodeBits, CodeValue;
      PeekWord(64);
      Code(32);
      var v := CodeLength(msbCache);
      var ue := Unsigned32(Shr(msbCache, 64 - v) - 1);
      r := Clip3(lower, upper, Int32(SignedOf(ue)));
      Drop(v);
    }
  }
}
