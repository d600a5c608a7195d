/**
 * Initial reference lists of field pictures (clauses 8.2.4.2.2, 8.2.4.2.4 and 8.2.4.2.5 of H.264): frames sorted
 * by insertion, of which the marked fields are taken alternately from each parity.
 */
module FieldLists {
  /** Slots below this one hold frames, and a bottom field is numbered from it on. */
  const FIELD_ID: nat := 64
  const LIST_SIZE: nat := 32

  type Frame = j: nat | j < FIELD_ID

  // --- alternating parities ---

  /** The fields of one parity (0 top, 1 bottom) among ordered frames, for those where it is marked. */
  function OfParity(frames: seq<Frame>, marked: set<Frame>, parity: nat): seq<nat> {
    if frames == [] then []
    else (if frames[0] in marked then [frames[0] + parity * FIELD_ID] else []) + OfParity(frames[1..], marked, parity)
  }

  /** One of a, one of b, and so on; when one runs out, the rest of the other. */
  function Alternate(a: seq<nat>, b: seq<nat>): (r: seq<nat>)
    ensures |r| == |a| + |b|
    decreases |a| + |b|
  {
    if a == [] then b else [a[0]] + Alternate(b, a[1..])
  }

  // Positions in an alternation of lists of n and m elements.
  function FirstAt(n: nat, m: nat, i: nat): nat {
    if i <= m then 2 * i else m + i
  }

  function SecondAt(n: nat, m: nat, i: nat): nat {
    if i < n then 2 * i + 1 else n + i
  }

  /** Where each field ends up: alternating while both parities last, in order ever after. */
  lemma {:induction false} AlternateFirst(a: seq<nat>, b: seq<nat>, i: nat)
    requires i < |a|
    ensures FirstAt(|a|, |b|, i) < |a| + |b| && Alternate(a, b)[FirstAt(|a|, |b|, i)] == a[i]
    decreases |a| + |b|
  {
    if i > 0 {
      AlternateSecond(b, a[1..], i - 1);
      assert FirstAt(|a|, |b|, i) == SecondAt(|b|, |a| - 1, i - 1) + 1;
      assert Alternate(a, b) == [a[0]] + Alternate(b, a[1..]);
    }
  }

  lemma {:induction false} AlternateSecond(a: seq<nat>, b: seq<nat>, i: nat)
    requires i < |b|
    ensures SecondAt(|a|, |b|, i) < |a| + |b| && Alternate(a, b)[SecondAt(|a|, |b|, i)] == b[i]
    decreases |a| + |b|
  {
    if a != [] {
      AlternateFirst(b, a[1..], i);
      assert SecondAt(|a|, |b|, i) == FirstAt(|b|, |a| - 1, i) + 1;
      assert Alternate(a, b) == [a[0]] + Alternate(b, a[1..]);
    }
  }

  lemma AlternateNone(a: seq<nat>)
    ensures Alternate(a, []) == a
  {
  }

  // At most as many entries as a list has.
  function Capped(l: seq<nat>): seq<nat> {
    if |l| <= LIST_SIZE then l else l[..LIST_SIZE]
  }

  // The fields still to take, the parity whose turn it is first.
  function Left(frames: seq<Frame>, marked: seq<set<Frame>>, parity: nat, i: nat, j: nat): seq<nat>
    requires |marked| == 2 && parity < 2 && i <= |frames| && j <= |frames|
  {
    Alternate(OfParity(frames[i..], marked[parity], parity), OfParity(frames[j..], marked[1 - parity], 1 - parity))
  }

  lemma LeftNone(frames: seq<Frame>, marked: seq<set<Frame>>, parity: nat, j: nat)
    requires |marked| == 2 && parity < 2 && j <= |frames|
    ensures Left(frames, marked, parity, |frames|, j) == Left(frames, marked, 1 - parity, j, |frames|)
  {
    AlternateNone(OfParity(frames[j..], marked[1 - parity], 1 - parity));
  }

  lemma LeftUnmarked(frames: seq<Frame>, marked: seq<set<Frame>>, parity: nat, i: nat, j: nat)
    requires |marked| == 2 && parity < 2 && i < |frames| && j <= |frames| && frames[i] !in marked[parity]
    ensures Left(frames, marked, parity, i, j) == Left(frames, marked, parity, i + 1, j)
  {
    assert frames[i..][1..] == frames[i + 1..];
    assert OfParity(frames[i..], marked[parity], parity) == OfParity(frames[i + 1..], marked[parity], parity);
  }

  lemma LeftMarked(frames: seq<Frame>, marked: seq<set<Frame>>, parity: nat, i: nat, j: nat)
    requires |marked| == 2 && parity < 2 && i < |frames| && j <= |frames| && frames[i] in marked[parity]
    ensures Left(frames, marked, parity, i, j) == [frames[i] + parity * FIELD_ID] + Left(frames, marked, 1 - parity,
        j, i + 1)
  {
    assert frames[i..][1..] == frames[i + 1..];
    var a := OfParity(frames[i..], marked[parity], parity);
    assert a[0] == frames[i] + parity * FIELD_ID && a[1..] == OfParity(frames[i + 1..], marked[parity], parity);
  }

  lemma CappedAppend(l: seq<nat>, f: nat, rest: seq<nat>)
    ensures Capped(l + ([f] + rest)) == Capped((if |l| < LIST_SIZE then l + [f] else l) + rest) || |l| >= LIST_SIZE
    ensures |l| == LIST_SIZE ==> Capped(l + ([f] + rest)) == l == Capped(l + rest)
  {
    assert l + ([f] + rest) == l + [f] + rest;
  }

  /** append_fields: the fields of ordered frames, alternately of the parity of the current field and the other. */
  method AppendFields(list: seq<nat>, frames: seq<Frame>, marked: seq<set<Frame>>, bottom: nat) returns (r: seq<nat>)
    requires |marked| == 2 && bottom < 2 && |list| <= LIST_SIZE
    ensures r == Capped(list + Left(frames, marked, bottom, 0, 0))
  {
    hide Left, Capped;
    r := list;
    var n := |frames|;
    var idx := [0, 0];
    var k := 0;
    while idx[0] < n || idx[1] < n
      invariant 0 <= k < 2 && |idx| == 2 && 0 <= idx[0] <= n && 0 <= idx[1] <= n && |r| <= LIST_SIZE
      invariant Capped(list + Left(frames, marked, bottom, 0, 0)) ==
                Capped(r + Left(frames, marked, if k == 0 then bottom else 1 - bottom, idx[k], idx[1 - k]))
      decreases 2 * n - idx[0] - idx[1], if idx[k] == n then 1 else 0
    {
      var q := if k == 0 then bottom else 1 - bottom;
      var i := idx[k];
      while i < n && frames[i] !in marked[q]
        invariant idx[k] <= i <= n
        invariant Left(frames, marked, q, i, idx[1 - k]) == Left(frames, marked, q, idx[k], idx[1 - k])
      {
        LeftUnmarked(frames, marked, q, i, idx[1 - k]);
        i := i + 1;
      }
      if i < n {
        var f := frames[i] + q * FIELD_ID;
        LeftMarked(frames, marked, q, i, idx[1 - k]);
        CappedAppend(r, f, Left(frames, marked, 1 - q, idx[1 - k], i + 1));
        if |r| < LIST_SIZE {
          r := r + [f];
        }
        i := i + 1;
      } else {
        LeftNone(frames, marked, q, idx[1 - k]);
      }
      idx := idx[k := i];
      k := 1 - k;
    }
    NothingLeft(frames, marked, if k == 0 then bottom else 1 - bottom, r);
  }

  lemma NothingLeft(frames: seq<Frame>, marked: seq<set<Frame>>, parity: nat, r: seq<nat>)
    requires |marked| == 2 && parity < 2 && |r| <= LIST_SIZE
    ensures Capped(r + Left(frames, marked, parity, |frames|, |frames|)) == r
  {
    assert frames[|frames|..] == [];
    assert r + [] == r;
  }

  // --- each field once ---

  lemma {:induction false} AlternateAll(a: seq<nat>, b: seq<nat>)
    ensures multiset(Alternate(a, b)) == multiset(a) + multiset(b)
    decreases |a| + |b|
  {
    if a != [] {
      AlternateAll(b, a[1..]);
      assert a == [a[0]] + a[1..];
    }
  }

  ghost predicate NoDuplicate(l: seq<nat>) {
    forall i, j | 0 <= i < j < |l| :: l[i] != l[j]
  }

  lemma {:induction false} OfParityMembers(frames: seq<Frame>, marked: set<Frame>, parity: nat)
    ensures forall f: nat :: f in OfParity(frames, marked, parity) <==>
              exists j: Frame :: j in frames && j in marked && f == j + parity * FIELD_ID
  {
    if frames != [] {
      OfParityMembers(frames[1..], marked, parity);
      assert frames == [frames[0]] + frames[1..];
    }
  }

  lemma {:induction false} OfParityDistinct(frames: seq<Frame>, marked: set<Frame>, parity: nat)
    requires NoDuplicate(frames)
    ensures NoDuplicate(OfParity(frames, marked, parity))
  {
    if frames != [] {
      var rest := frames[1..];
      OfParityDistinct(rest, marked, parity);
      OfParityMembers(rest, marked, parity);
      forall j: Frame | j in rest
        ensures j != frames[0]
      {
        var k :| 0 <= k < |rest| && rest[k] == j;
        assert frames[k + 1] == j;
      }
      var l := OfParity(rest, marked, parity);
      assert frames[0] + parity * FIELD_ID !in l;
    }
  }

  lemma ParityCount(frames: seq<Frame>, marked: set<Frame>, q: nat, parity: nat, j: Frame)
    requires q < 2 && parity < 2 && NoDuplicate(frames)
    ensures multiset(OfParity(frames, marked, q))[j + parity * FIELD_ID] ==
            if q == parity && j in frames && j in marked then 1 else 0
  {
    OfParityMembers(frames, marked, q);
    OfParityDistinct(frames, marked, q);
    Once(OfParity(frames, marked, q), j + parity * FIELD_ID);
    assert forall i: Frame | i in frames :: i + q * FIELD_ID == j + parity * FIELD_ID <==> i == j && q == parity;
  }

  /** A list made of frames takes each marked field of theirs exactly once. */
  lemma EachFieldOnce(frames: seq<Frame>, marked: seq<set<Frame>>, bottom: nat, parity: nat, j: Frame)
    requires |marked| == 2 && bottom < 2 && parity < 2 && NoDuplicate(frames)
    ensures multiset(Left(frames, marked, bottom, 0, 0))[j + parity * FIELD_ID] == if j in frames
        && j in marked[parity] then 1 else 0
  {
    hide OfParity, Alternate;
    assert frames[0..] == frames;
    ParityCount(frames, marked[bottom], bottom, parity, j);
    ParityCount(frames, marked[1 - bottom], 1 - bottom, parity, j);
    AlternateAll(OfParity(frames, marked[bottom], bottom), OfParity(frames, marked[1 - bottom], 1 - bottom));
  }

  lemma {:induction false} Once(l: seq<nat>, f: nat)
    requires NoDuplicate(l)
    ensures multiset(l)[f] == if f in l then 1 else 0
  {
    if l != [] {
      var k := |l| - 1;
      Once(l[..k], f);
      assert l == l[..k] + [l[k]];
      assert l[k] !in l[..k];
    }
  }

  // --- sorting the frames ---

  // A lower key, or of equal ones the lower slot.
  predicate Before(keys: seq<int>, i: Frame, j: Frame)
    requires |keys| == FIELD_ID
  {
    keys[i] < keys[j] || (keys[i] == keys[j] && i < j)
  }

  ghost predicate Sorted(keys: seq<int>, l: seq<Frame>)
    requires |keys| == FIELD_ID
  {
    forall a, b | 0 <= a < b < |l| :: Before(keys, l[a], l[b])
  }

  function Elements(l: seq<Frame>): set<Frame> {
    set j | j in l
  }

  lemma SortedInsert(keys: seq<int>, l: seq<Frame>, b: nat, f: Frame)
    requires |keys| == FIELD_ID && Sorted(keys, l) && b <= |l| && (forall g | g in l :: g < f)
    requires forall k | b <= k < |l| :: keys[l[k]] > keys[f]
    requires b > 0 ==> keys[l[b - 1]] <= keys[f]
    ensures Sorted(keys, l[..b] + [f] + l[b..])
  {
    var r := l[..b] + [f] + l[b..];
    forall k | 0 <= k < b
      ensures Before(keys, l[k], f)
    {
      assert l[k] in l;
      assert k == b - 1 || Before(keys, l[k], l[b - 1]);
    }
    forall i, j | 0 <= i < j < |r|
      ensures Before(keys, r[i], r[j])
    {
      assert r[i] == if i < b then l[i] else if i == b then f else l[i - 1];
      assert r[j] == if j < b then l[j] else if j == b then f else l[j - 1];
    }
  }

  lemma InsertElements(l: seq<Frame>, b: nat, f: Frame)
    requires b <= |l|
    ensures Elements(l[..b] + [f] + l[b..]) == Elements(l) + {f}
  {
    assert l == l[..b] + l[b..];
  }

  /** A step of the insertion sorts: frame f, of a higher slot than those sorted, moves in among the first ones. */
  method InsertFrame(frames: array<Frame>, len: nat, f: Frame, keys: seq<int>)
    requires |keys| == FIELD_ID && len < frames.Length && Sorted(keys, frames[..len])
        && forall g | g in frames[..len] :: g < f
    modifies frames
    ensures Sorted(keys, frames[..len + 1]) && Elements(frames[..len + 1]) == Elements(old(frames[..len])) + {f}
    ensures frames[len + 1..] == old(frames[len + 1..])
  {
    ghost var l := frames[..len];
    var b := len;
    while b > 0 && keys[frames[b - 1]] > keys[f]
      invariant b <= len && frames[..b] == l[..b] && frames[len + 1..] == old(frames[len + 1..])
      invariant forall k | b < k <= len :: frames[k] == l[k - 1]
      invariant forall k | b <= k < len :: keys[l[k]] > keys[f]
    {
      frames[b] := frames[b - 1];
      b := b - 1;
    }
    frames[b] := f;
    SortedInsert(keys, l, b, f);
    InsertElements(l, b, f);
    assert frames[..len + 1] == l[..b] + [f] + l[b..];
  }

  /** The frames of a set, first by slot, then sorted by key. */
  method SortFrames(some: set<Frame>, keys: seq<int>) returns (l: seq<Frame>)
    requires |keys| == FIELD_ID
    ensures Sorted(keys, l) && Elements(l) == some
  {
    var frames := new Frame[FIELD_ID](i => 0);
    var n := 0;
    for i := 0 to FIELD_ID
      invariant n <= i && Elements(frames[..n]) == set j | j in some && j < i
      invariant Sorted(keys, frames[..n])
    {
      if i in some {
        assert forall g | g in frames[..n] :: g in Elements(frames[..n]);
        InsertFrame(frames, n, i, keys);
        n := n + 1;
      }
    }
    l := frames[..n];
  }

  // --- the initial lists ---

  // The marks of the fields of each parity, and what the frames are ordered by.
  datatype Source = Source(
    shortFields: seq<set<Frame>>, longFields: seq<set<Frame>>, shorts: set<Frame>, longs: set<Frame>,
    frameNums: seq<int>, poc: seq<seq<int>>, indices: seq<int>, current: int, bottom: nat)
  {
    ghost predicate Valid() {
      && |shortFields| == 2 && |longFields| == 2 && |poc| == 2 && bottom < 2
      && |frameNums| == |poc[0]| == |poc[1]| == |indices| == FIELD_ID
      && (forall q, j: Frame | 0 <= q < 2 :: -0x8000_0000 <= poc[q][j] < 0x8000_0000)
      && -0x8000_0000 <= current < 0x8000_0000
    }

    // Frames inferred for a gap, marked both ways, count as short-term, and stay out of B lists if told.
    function ShortTerm(dropGaps: bool): seq<set<Frame>>
      requires |shortFields| == 2
    {
      var gaps := if dropGaps then shorts * longs else {};
      [shortFields[0] * shorts - gaps, shortFields[1] * shorts - gaps]
    }

    function LongTerm(): seq<set<Frame>>
      requires |shortFields| == 2 && |longFields| == 2
    {
      [longFields[0] * longs - shortFields[0], longFields[1] * longs - shortFields[1]]
    }

    // A frame of a single field holds its order count twice.
    function FramePoc(j: Frame): (r: int)
      requires Valid()
      ensures r <= poc[0][j] && r <= poc[1][j] && (r == poc[0][j] || r == poc[1][j])
    {
      if poc[0][j] < poc[1][j] then poc[0][j] else poc[1][j]
    }
  }

  const AFTER: int := 0x2_0000_0000

  function Key(s: Source, isB: bool, j: Frame): int
    requires s.Valid()
  {
    var d := s.FramePoc(j) - s.current;
    if !isB then -s.frameNums[j] else if d <= 0 then -d else AFTER + d
  }

  /** By FrameNum downwards; or not after the current field and closest first, then after it and closest first. */
  lemma KeyOrder(s: Source, i: Frame, j: Frame)
    requires s.Valid()
    ensures Key(s, false, i) < Key(s, false, j) <==> s.frameNums[i] > s.frameNums[j]
    ensures Key(s, true, i) < AFTER <==> s.FramePoc(i) <= s.current
    ensures var a, b := s.FramePoc(i), s.FramePoc(j);
            Key(s, true, i) < Key(s, true, j) <==>
            if a <= s.current then a > b || b > s.current else s.current < a < b
  {
  }

  /** The list made of sorted short-term frames and sorted long-term frames. */
  function FieldList(s: Source, shorts: seq<Frame>, longs: seq<Frame>, dropGaps: bool): seq<nat>
    requires s.Valid()
  {
    Capped(Left(shorts, s.ShortTerm(dropGaps), s.bottom, 0, 0) + Left(longs, s.LongTerm(), s.bottom, 0, 0))
  }

  // This field of a frame is a short-term reference, or a long-term one.
  ghost predicate ShortField(s: Source, dropGaps: bool, j: Frame, parity: nat)
    requires s.Valid() && parity < 2
  {
    j in s.shortFields[parity] && j in s.shorts && !(dropGaps && j in s.longs)
  }

  ghost predicate LongField(s: Source, j: Frame, parity: nat)
    requires s.Valid() && parity < 2
  {
    j in s.longFields[parity] && j in s.longs && j !in s.shortFields[parity]
  }

  /**
   * Which fields a list holds, whatever the order of the frames: only reference fields, none of them twice, and all
   * of them unless the list is full.
   */
  lemma FieldListHolds(s: Source, shorts: seq<Frame>, longs: seq<Frame>, dropGaps: bool, j: Frame, parity: nat)
    requires s.Valid() && parity < 2 && NoDuplicate(shorts) && NoDuplicate(longs)
    requires Elements(shorts) == s.ShortTerm(dropGaps)[0] + s.ShortTerm(dropGaps)[1]
    requires Elements(longs) == s.LongTerm()[0] + s.LongTerm()[1]
    ensures var list, f := FieldList(s, shorts, longs, dropGaps), j + parity * FIELD_ID;
            && |list| <= LIST_SIZE && multiset(list)[f] <= 1
            && (f in list ==> ShortField(s, dropGaps, j, parity) || LongField(s, j, parity))
            && (|list| < LIST_SIZE && (ShortField(s, dropGaps, j, parity) || LongField(s, j, parity)) ==> f in list)
  {
    hide Left;
    var a, b := Left(shorts, s.ShortTerm(dropGaps), s.bottom, 0, 0), Left(longs, s.LongTerm(), s.bottom, 0, 0);
    assert j in shorts <==> j in Elements(shorts);
    assert j in longs <==> j in Elements(longs);
    EachFieldOnce(shorts, s.ShortTerm(dropGaps), s.bottom, parity, j);
    EachFieldOnce(longs, s.LongTerm(), s.bottom, parity, j);
    assert multiset(a + b) == multiset(a) + multiset(b);
    var list, f := FieldList(s, shorts, longs, dropGaps), j + parity * FIELD_ID;
    assert multiset(a + b)[f] == multiset(a)[f] + multiset(b)[f] <= 1;
    if |a + b| > LIST_SIZE {
      assert list == (a + b)[..LIST_SIZE];
      assert a + b == (a + b)[..LIST_SIZE] + (a + b)[LIST_SIZE..];
      assert multiset(a + b) == multiset((a + b)[..LIST_SIZE]) + multiset((a + b)[LIST_SIZE..]);
    }
  }

  /** The list starts with the first short-term frame whose field of the parity of the current field is one. */
  lemma SameParityFirst(s: Source, shorts: seq<Frame>, longs: seq<Frame>, dropGaps: bool, k: nat)
    requires s.Valid() && k < |shorts| && ShortField(s, dropGaps, shorts[k], s.bottom)
    requires forall i | 0 <= i < k :: !ShortField(s, dropGaps, shorts[i], s.bottom)
    ensures var list := FieldList(s, shorts, longs, dropGaps);
            |list| > 0 && list[0] == shorts[k] + s.bottom * FIELD_ID
  {
    assert shorts[0..] == shorts;
    FirstOfParity(shorts, s.ShortTerm(dropGaps)[s.bottom], s.bottom, k);
  }

  lemma {:induction false} FirstOfParity(frames: seq<Frame>, marked: set<Frame>, parity: nat, k: nat)
    requires k < |frames| && frames[k] in marked && forall i | 0 <= i < k :: frames[i] !in marked
    ensures var l := OfParity(frames, marked, parity); |l| > 0 && l[0] == frames[k] + parity * FIELD_ID
  {
    if k > 0 {
      FirstOfParity(frames[1..], marked, parity, k - 1);
    }
  }

  lemma CappedTwice(a: seq<nat>, b: seq<nat>)
    ensures Capped(Capped(a) + b) == Capped(a + b)
  {
  }

  /** Sorted frames are those not after the current field, then those after it. */
  lemma {:induction false} Separated(s: Source, keys: seq<int>, l: seq<Frame>, before: nat)
    requires s.Valid() && |keys| == FIELD_ID && (forall j: Frame :: keys[j] == Key(s, true, j)) && Sorted(keys, l)
        && before <= |l|
    requires before < |l| ==> keys[l[before]] >= AFTER
    requires forall k | 0 <= k < before :: keys[l[k]] < AFTER
    ensures forall k | 0 <= k < |l| :: k < before <==> s.FramePoc(l[k]) <= s.current
  {
    forall k | 0 <= k < |l|
      ensures k < before <==> s.FramePoc(l[k]) <= s.current
    {
      KeyOrder(s, l[k], l[k]);
      if k > before {
        assert Before(keys, l[before], l[k]);
      }
    }
  }

  /**
   * init_field_lists: the lists of a P or B field, from the sorted frames of which a field is marked. The second
   * list of a B field takes the frames after the current field first.
   */
  method InitFieldLists(s: Source, isB: bool, dropGaps: bool)
    returns (list0: seq<nat>, list1: seq<nat>, shorts: seq<Frame>, longs: seq<Frame>, before: nat)
    requires s.Valid()
    ensures Elements(shorts) == s.ShortTerm(dropGaps)[0] + s.ShortTerm(dropGaps)[1]
    ensures Elements(longs) == s.LongTerm()[0] + s.LongTerm()[1]
    ensures forall a, b | 0 <= a < b < |shorts| :: Key(s, isB, shorts[a]) <= Key(s, isB, shorts[b])
    ensures Sorted(s.indices, longs) && list0 == FieldList(s, shorts, longs, dropGaps)
    ensures isB ==> before <= |shorts| && forall k | 0 <= k < |shorts| ::
        k < before <==> s.FramePoc(shorts[k]) <= s.current
    ensures list1 == if isB then FieldList(s, shorts[before..] + shorts[..before], longs, dropGaps) else []
  {
    hide Key, Left, Capped;
    var marked, markedLong := s.ShortTerm(dropGaps), s.LongTerm();
    var keys := seq(FIELD_ID, j requires 0 <= j < FIELD_ID => Key(s, isB, j));
    shorts := SortFrames(marked[0] + marked[1], keys);
    longs := SortFrames(markedLong[0] + markedLong[1], s.indices);
    list0 := Lists(shorts, longs, marked, markedLong, s.bottom);
    before, list1 := 0, [];
    if isB {
      while before < |shorts| && keys[shorts[before]] < AFTER
        invariant before <= |shorts| && forall k | 0 <= k < before :: keys[shorts[k]] < AFTER
      {
        before := before + 1;
      }
      Separated(s, keys, shorts, before);
      list1 := Lists(shorts[before..] + shorts[..before], longs, marked, markedLong, s.bottom);
    }
    forall a, b | 0 <= a < b < |shorts|
      ensures Key(s, isB, shorts[a]) <= Key(s, isB, shorts[b])
    {
      assert Before(keys, shorts[a], shorts[b]);
    }
  }

  method Lists(shorts: seq<Frame>, longs: seq<Frame>, marked: seq<set<Frame>>, markedLong: seq<set<Frame>>, bottom: nat)
    returns (r: seq<nat>)
    requires |marked| == 2 && |markedLong| == 2 && bottom < 2
    ensures r == Capped(Left(shorts, marked, bottom, 0, 0) + Left(longs, markedLong, bottom, 0, 0))
  {
    hide Left;
    r := AppendFields([], shorts, marked, bottom);
    assert [] + Left(shorts, marked, bottom, 0, 0) == Left(shorts, marked, bottom, 0, 0);
    CappedTwice(Left(shorts, marked, bottom, 0, 0), Left(longs, markedLong, bottom, 0, 0));
    r := AppendFields(r, longs, markedLong, bottom);
  }
}
