/**
 * Reference picture lists of frame pictures (clause 8.2.4 of H.264): initialisation by a selection sort
 * on 64-bit keys, and modification by a loop of swaps.
 */
module RefLists {
  import opened Arithmetic
  import opened Marking
  import opened Sets
  import Counters

  /** The references of a slice: short-term ones with the value they are sorted by, long-term ones with an index. */
  datatype Source = Source(shorts: set<Slot>, longs: set<Slot>, values: seq<int32>, indices: seq<int32>,
      current: int32) {
    ghost predicate Valid() {
      |values| == |indices| == MAX_FRAMES && forall j | j in longs :: indices[j] >= 0
    }
  }

  const CLASS: int := 0x1_0000_0000

  /** Class 0 up to the current value, 1 after it, 2 for long-term references; distance within the class. */
  function Class(s: Source, i: Slot): (c: nat)
    requires s.Valid()
    ensures c <= 2
  {
    if i !in s.shorts then 2 else if s.values[i] <= s.current then 0 else 1
  }

  function Distance(s: Source, i: Slot): int
    requires s.Valid()
  {
    if i !in s.shorts then s.indices[i]
    else if s.values[i] <= s.current then s.current - s.values[i]
    else s.values[i] - s.current
  }

  // The sort key of the code.
  function Key(s: Source, i: Slot): int
    requires s.Valid()
  {
    var diff := s.values[i] - s.current;
    if i in s.shorts then if diff <= 0 then -diff else CLASS + diff else s.indices[i] + 2 * CLASS
  }

  /** Keys order by class, then distance: 32-bit values cannot reach into the next class. */
  lemma KeyOrder(s: Source, i: Slot, j: Slot)
    requires s.Valid() && i in s.shorts + s.longs && j in s.shorts + s.longs
    ensures Key(s, i) / CLASS == Class(s, i) && Key(s, i) < 0x7FFF_FFFF_FFFF_FFFF
    ensures Key(s, i) < Key(s, j) <==>
            Class(s, i) < Class(s, j) || (Class(s, i) == Class(s, j) && Distance(s, i) < Distance(s, j))
  {
  }

  /**
   * The order of 8.2.4.2: short-term references not after the current value, closest first, then those after it,
   * closest first, then long-term ones by index. With frame numbers for values, of which none is greater than the
   * current one, these are P lists by falling number; with order counts, they are B lists.
   */
  lemma ListOrder(s: Source, i: Slot, j: Slot)
    requires s.Valid() && i in s.shorts + s.longs && j in s.shorts + s.longs
    ensures i in s.shorts && j !in s.shorts ==> Key(s, i) < Key(s, j)
    ensures i !in s.shorts && j !in s.shorts ==> (Key(s, i) < Key(s, j) <==> s.indices[i] < s.indices[j])
    ensures i in s.shorts && j in s.shorts && s.values[i] <= s.current < s.values[j] ==> Key(s, i) < Key(s, j)
    ensures i in s.shorts && j in s.shorts && s.values[i] <= s.current && s.values[j] <= s.current ==>
              (Key(s, i) < Key(s, j) <==> s.values[i] > s.values[j])
    ensures i in s.shorts && j in s.shorts && s.values[i] > s.current && s.values[j] > s.current ==>
              (Key(s, i) < Key(s, j) <==> s.values[i] < s.values[j])
  {
  }

  // i comes before j: a lower key, or the lower slot of equal ones.
  ghost predicate Precedes(s: Source, i: Slot, j: Slot)
    requires s.Valid()
  {
    Key(s, i) < Key(s, j) || (Key(s, i) == Key(s, j) && i < j)
  }

  ghost predicate Sorted(s: Source, l: seq<Slot>)
    requires s.Valid()
  {
    forall a, b | 0 <= a < b < |l| :: Precedes(s, l[a], l[b])
  }

  function Elements(l: seq<Slot>): set<Slot> {
    set i | i in l
  }

  lemma NothingListed(s: Source)
    requires s.Valid()
    ensures Elements([]) == {} && Sorted(s, []) && Counted(s, [], 0, 0)
  {
  }

  lemma SortedAppend(s: Source, l: seq<Slot>, j: Slot)
    requires s.Valid() && Sorted(s, l) && forall a | 0 <= a < |l| :: Precedes(s, l[a], j)
    ensures Sorted(s, l + [j])
  {
  }

  lemma ElementsAppend(l: seq<Slot>, j: Slot)
    ensures Elements(l + [j]) == Elements(l) + {j}
  {
  }

  // How many of the first entries have a class.
  ghost predicate Counted(s: Source, l: seq<Slot>, before: nat, after: nat)
    requires s.Valid()
  {
    && before + after <= |l|
    && forall k | 0 <= k < |l| ::
         Class(s, l[k]) == if k < before then 0 else if k < before + after then 1 else 2
  }

  /** The selection sort: every reference once, ordered by key. */
  method InitList0(s: Source, refs: set<Slot>) returns (l: seq<Slot>, before: nat, after: nat)
    requires s.Valid() && refs <= s.shorts + s.longs
    ensures Sorted(s, l) && Elements(l) == refs && Counted(s, l, before, after)
  {
    hide Precedes, Key, Class, Distance, Elements, Sorted, Counted, Card;
    NothingListed(s);
    l := [];
    var count := [0, 0, 0];
    var rest := refs;
    while rest != {}
      invariant rest <= refs && Elements(l) == refs - rest && Sorted(s, l)
      invariant forall a, j | 0 <= a < |l| && j in rest :: Precedes(s, l[a], j)
      invariant |count| == 3 && count[0] >= 0 && count[1] >= 0 && count[0] + count[1] + count[2] == |l|
      invariant count[2] >= 0 && Counted(s, l, count[0], count[1])
      decreases Card(rest)
    {
      var next := Nearest(s, rest);
      CardDrop(rest, next);
      KeyOrder(s, next, next);
      Placed(s, l, next, count[0], count[1]);
      var c := Key(s, next) / CLASS;
      ElementsAppend(l, next);
      SortedAppend(s, l, next);
      l, count := l + [next], count[c := count[c] + 1];
      rest := rest - {next};
    }
    before, after := count[0], count[1];
  }

  /** The inner loop: the reference of lowest key, from the lowest slot up. */
  method Nearest(s: Source, rest: set<Slot>) returns (next: Slot)
    requires s.Valid() && rest <= s.shorts + s.longs && rest != {}
    ensures next in rest && forall j | j in rest && j != next :: Precedes(s, next, j)
  {
    var best := 0x7FFF_FFFF_FFFF_FFFF;
    next := 0;
    for i := 0 to MAX_FRAMES
      invariant best < 0x7FFF_FFFF_FFFF_FFFF ==> next in rest && next < i && best == Key(s, next)
      invariant forall j | j in rest && j < i && j != next :: best < Key(s, j) || (best == Key(s, j) && next < j)
      invariant forall j | j in rest && j < i :: best < 0x7FFF_FFFF_FFFF_FFFF
    {
      if i in rest {
        KeyOrder(s, i, i);
        if Key(s, i) < best {
          best, next := Key(s, i), i;
        }
      }
    }
    ghost var j :| j in rest;
  }

  // Appending the next reference in order: its class is that of the last one, or a later one.
  lemma Placed(s: Source, l: seq<Slot>, next: Slot, before: nat, after: nat)
    requires s.Valid() && Counted(s, l, before, after) && next in s.shorts + s.longs
        && Elements(l) <= s.shorts + s.longs
    requires forall a | 0 <= a < |l| :: Precedes(s, l[a], next)
    ensures var c := Class(s, next);
            Counted(s, l + [next], if c == 0 then before + 1 else before, if c == 1 then after + 1 else after)
  {
    forall a | 0 <= a < |l|
      ensures Class(s, l[a]) <= Class(s, next)
    {
      assert l[a] in Elements(l) && Precedes(s, l[a], next);
      KeyOrder(s, next, l[a]);
    }
    if before < |l| {
      assert Class(s, l[before]) <= Class(s, next);
    }
    if before + after < |l| {
      assert Class(s, l[before + after]) <= Class(s, next);
    }
  }

  /** List 1: the references after the current picture go first (8.2.4.2.3). */
  function List1(l: seq<Slot>, before: nat, after: nat): (r: seq<Slot>)
    requires before + after <= |l|
    ensures |r| == |l| && Elements(r) == Elements(l)
  {
    var r := l[before..before + after] + l[..before] + l[before + after..];
    assert forall k | 0 <= k < |l| ::
        l[k] == r[if k < before then k + after else if k < before + after then k - before else k];
    r
  }

  /**
   * In list 1 the short-term references after the current value come first, then the others, then long-term ones,
   * each of the three as in list 0.
   */
  lemma List1Order(s: Source, l: seq<Slot>, before: nat, after: nat, a: nat, b: nat)
    requires s.Valid() && Sorted(s, l) && Counted(s, l, before, after) && a < b < |l|
    ensures var i, j := List1(l, before, after)[a], List1(l, before, after)[b];
            && (i !in s.shorts ==> j !in s.shorts)
            && (i in s.shorts && s.values[i] <= s.current && j in s.shorts ==> s.values[j] <= s.current)
            && (Class(s, i) == Class(s, j) ==> Precedes(s, i, j))
  {
    hide Precedes;
    var r := List1(l, before, after);
    assert r[a] == l[if a < after then a + before else if a < before + after then a - after else a];
    assert r[b] == l[if b < after then b + before else if b < before + after then b - after else b];
  }

  /** The loop that fills list 1 by swapping the two classes. */
  method FillList1(l: seq<Slot>, before: nat, after: nat, list1: array<int>)
    requires before + after <= |l| <= list1.Length
    modifies list1
    ensures list1[..|l|] == List1(l, before, after)
    ensures forall k | |l| <= k < list1.Length :: list1[k] == old(list1[k])
  {
    for src := 0 to |l|
      invariant forall k | 0 <= k < src :: list1[Target(k, before, after)] == l[k]
      invariant forall k | |l| <= k < list1.Length :: list1[k] == old(list1[k])
    {
      list1[Target(src, before, after)] := l[src];
    }
    forall k | 0 <= k < |l|
      ensures list1[k] == List1(l, before, after)[k]
    {
      var src := if k < after then k + before else if k < before + after then k - after else k;
      assert Target(src, before, after) == k;
    }
  }

  function Target(src: nat, before: nat, after: nat): nat {
    if src < before then src + after else if src < before + after then src - before else src
  }

  /** For distinct entries, comparing the first ones tells whether the whole lists are the same. */
  lemma FirstTellsAll(l: seq<Slot>, before: nat, after: nat)
    requires before + after <= |l| && l != [] && forall a, b | 0 <= a < b < |l| :: l[a] != l[b]
    ensures l[0] == List1(l, before, after)[0] <==> l == List1(l, before, after)
  {
    if before == 0 || after == 0 {
      assert List1(l, before, after) == l;
    }
  }

  lemma SortedDistinct(s: Source, l: seq<Slot>, a: nat, b: nat)
    requires s.Valid() && Sorted(s, l) && a < b < |l|
    ensures l[a] != l[b]
  {
    assert Precedes(s, l[a], l[b]);
  }

  /** 8.2.4.2: the two lists, with the first entries of list 1 switched if it would be list 0 again. */
  method InitLists(s: Source, refs: set<Slot>, list0: array<int>, list1: array<int>)
        returns (l: seq<Slot>, before: nat, after: nat)
    requires s.Valid() && refs <= s.shorts + s.longs && list0 != list1
    requires 2 <= list0.Length == list1.Length && Card(refs) <= list0.Length
    requires forall k | 0 <= k < list0.Length :: list0[k] == -1
    modifies list0, list1
    ensures Sorted(s, l) && Elements(l) == refs && |l| <= list0.Length && Counted(s, l, before, after)
    ensures list0[..|l|] == l
    ensures list1[..|l|] == if |l| > 1 && List1(l, before, after) == l then [l[1], l[0]] + l[2..] else List1(l,
        before, after)
  {
    hide Elements, Counted, Precedes, Card;
    l, before, after := InitList0(s, refs);
    SortedSize(s, l);
    CountedBound(s, l, before, after);
    for k := 0 to |l|
      invariant forall j | 0 <= j < k :: list0[j] == l[j]
      invariant forall j | k <= j < list0.Length :: list0[j] == -1
    {
      list0[k] := l[k];
    }
    FillList1(l, before, after, list1);
    SwitchFirst(s, l, before, after, list0, list1);
  }

  lemma CountedBound(s: Source, l: seq<Slot>, before: nat, after: nat)
    requires s.Valid() && Counted(s, l, before, after)
    ensures before + after <= |l|
  {
  }

  // The switch of the first two entries, told by the first ones.
  method SwitchFirst(s: Source, l: seq<Slot>, before: nat, after: nat, list0: array<int>, list1: array<int>)
    requires s.Valid() && Sorted(s, l) && before + after <= |l| <= list0.Length == list1.Length
        && 2 <= list0.Length && list0 != list1
    requires forall j | 0 <= j < |l| :: list0[j] == l[j]
    requires forall j | |l| <= j < list0.Length :: list0[j] == -1
    requires list1[..|l|] == List1(l, before, after)
    modifies list1
    ensures list1[..|l|] == if |l| > 1 && List1(l, before, after) == l then [l[1], l[0]] + l[2..] else List1(l,
        before, after)
  {
    hide Elements, Precedes, Sorted, List1;
    ghost var r := list1[..|l|];
    if |l| > 0 {
      forall a, b | 0 <= a < b < |l|
        ensures l[a] != l[b]
      {
        SortedDistinct(s, l, a, b);
      }
      FirstTellsAll(l, before, after);
      assert list1[0] == r[0];
    }
    if list0[1] >= 0 && list0[0] == list1[0] {
      list1[0] := list0[1];
      list1[1] := list0[0];
      assert r == l && list1[..|l|] == [l[1], l[0]] + l[2..];
    }
  }

  lemma {:induction false} SortedSize(s: Source, l: seq<Slot>)
    requires s.Valid() && Sorted(s, l)
    ensures Card(Elements(l)) == |l|
  {
    if l == [] {
      assert Elements(l) == {};
    } else {
      var k := |l| - 1;
      SortedSize(s, l[..k]);
      assert Elements(l) == Elements(l[..k]) + {l[k]};
      CardDrop(Elements(l), l[k]);
      assert Elements(l) - {l[k]} == Elements(l[..k]);
    }
  }

  // --- modification ---

  /** 8.2.4.3.1 on the first n entries: pic goes to place r, the entries after it move on, pic is taken out of them. */
  function Insert(l: seq<int>, r: nat, pic: int): (m: seq<int>)
    requires r < |l|
    ensures |m| == |l|
  {
    var m := l[..r] + [pic] + Without(l[r..], pic);
    WithoutLength(l[r..], pic);
    (m + l)[..|l|]
  }

  // l without the entries equal to pic.
  function Without(l: seq<int>, pic: int): seq<int> {
    if l == [] then [] else (if l[0] == pic then [] else [l[0]]) + Without(l[1..], pic)
  }

  lemma {:induction false} WithoutLength(l: seq<int>, pic: int)
    ensures |Without(l, pic)| <= |l|
  {
    if l != [] {
      WithoutLength(l[1..], pic);
    }
  }

  // From place r on, no picture stands twice (places without a picture hold -1).
  ghost predicate TailDistinct(l: seq<int>, r: nat) {
    forall i, j | r <= i < j < |l| && l[i] >= 0 :: l[i] != l[j]
  }

  lemma {:induction false} WithoutNone(l: seq<int>, pic: int)
    requires pic !in l
    ensures Without(l, pic) == l
  {
    if l != [] {
      WithoutNone(l[1..], pic);
    }
  }

  lemma {:induction false} WithoutOne(l: seq<int>, pic: int, k: nat)
    requires k < |l| && l[k] == pic && forall i | 0 <= i < |l| && i != k :: l[i] != pic
    ensures Without(l, pic) == l[..k] + l[k + 1..]
  {
    if k == 0 {
      WithoutNone(l[1..], pic);
    } else {
      WithoutOne(l[1..], pic, k - 1);
      assert l[..k] == [l[0]] + l[1..][..k - 1];
      assert l[1..][k..] == l[k + 1..];
    }
  }

  // The rotation of entries r to c - 1 of a list.
  function Rotated(a: seq<int>, r: nat, pic: int, c: nat): (t: seq<int>)
    requires r < c <= |a|
    ensures |t| == |a|
  {
    a[..r] + [pic] + a[r..c - 1] + a[c..]
  }

  lemma RotatedAt(a: seq<int>, r: nat, pic: int, c: nat, i: nat)
    requires r < c <= |a| && i < |a|
    ensures Rotated(a, r, pic, c)[i] == if i == r then pic else if r < i < c then a[i - 1] else a[i]
  {
    var h := a[..r] + [pic];
    var g := h + a[r..c - 1];
    assert |g| == c;
    if i < c {
      assert Rotated(a, r, pic, c)[i] == g[i];
    } else {
      assert Rotated(a, r, pic, c)[i] == a[c..][i - c];
    }
  }

  lemma RotatedHead(a: seq<int>, r: nat, pic: int, c: nat)
    requires r < c <= |a|
    ensures Rotated(a, r, pic, c)[..r + 1] == a[..r] + [pic]
  {
  }

  // Without a second pic, insertion is a rotation up to the place of pic, or to the end.
  lemma InsertRotates(l: seq<int>, r: nat, pic: int, k: nat)
    requires r <= k < |l| && TailDistinct(l, r) && pic >= 0
    requires (forall i | r <= i < k :: l[i] != pic) && (l[k] == pic || k == |l| - 1)
    ensures Insert(l, r, pic) == Rotated(l, r, pic, k + 1)
  {
    if l[k] == pic {
      InsertFound(l, r, pic, k);
    } else {
      InsertLost(l, r, pic);
      assert l[k + 1..] == [];
    }
  }

  lemma InsertFound(l: seq<int>, r: nat, pic: int, k: nat)
    requires r <= k < |l| && TailDistinct(l, r) && pic >= 0 && l[k] == pic
    ensures Insert(l, r, pic) == Rotated(l, r, pic, k + 1)
  {
    var t := l[r..];
    forall i | 0 <= i < |t| && i != k - r
      ensures t[i] != pic
    {
      assert t[i] == l[r + i];
    }
    hide TailDistinct, Without;
    WithoutOne(t, pic, k - r);
    assert t[..k - r] == l[r..k] && t[k - r + 1..] == l[k + 1..];
    var m := l[..r] + [pic] + Without(t, pic);
    Prefixed(l[..r] + [pic], l[r..k], l[k + 1..], l);
    assert m == l[..r] + [pic] + l[r..k] + l[k + 1..];
  }

  lemma Prefixed(a: seq<int>, b: seq<int>, c: seq<int>, l: seq<int>)
    requires |a| + |b| + |c| == |l|
    ensures a + (b + c) == a + b + c && (a + b + c + l)[..|l|] == a + b + c
  {
  }

  lemma InsertLost(l: seq<int>, r: nat, pic: int)
    requires r < |l| && forall i | r <= i < |l| :: l[i] != pic
    ensures Insert(l, r, pic) == l[..r] + [pic] + l[r..|l| - 1]
  {
    var t := l[r..];
    WithoutNone(t, pic);
    var m := l[..r] + [pic] + t;
    assert (m + l)[..|l|] == m[..|l|];
    assert t[..|l| - 1 - r] == l[r..|l| - 1];
  }

  /** The do-while loop of swaps. */
  method Swap(list: array<int>, r: nat, pic: int, n: nat)
    requires r < list.Length && n <= list.Length && 0 <= pic && TailDistinct(list[..n], r)
    modifies list
    ensures r < n ==> list[..n] == Insert(old(list[..n]), r, pic)
    ensures r >= n ==> list[..n] == old(list[..n])
  {
    hide TailDistinct, Insert;
    ghost var l := list[..];
    var buf, c := list[r], r + 1;
    list[r] := pic;
    while c < n && buf != pic
      invariant r < c <= list.Length && (c <= n || c == r + 1) && buf == l[c - 1] && list[r] == pic
      invariant forall i | 0 <= i < r :: list[i] == l[i]
      invariant forall i | r < i < c :: list[i] == l[i - 1]
      invariant forall i | c <= i < list.Length :: list[i] == l[i]
      invariant forall i | r <= i < c - 1 :: l[i] != pic
    {
      var swap := list[c];
      list[c] := buf;
      buf := swap;
      c := c + 1;
    }
    Swapped(l, list[..], r, pic, n, c);
  }

  // What the loop leaves is an insertion.
  lemma Swapped(l: seq<int>, m: seq<int>, r: nat, pic: int, n: nat, c: nat)
    requires r < |l| == |m| && n <= |l| && pic >= 0 && TailDistinct(l[..n], r)
    requires r < c <= |l| && (c <= n || c == r + 1) && m[r] == pic && (c >= n || l[c - 1] == pic)
    requires forall i | 0 <= i < r :: m[i] == l[i]
    requires forall i | r < i < c :: m[i] == l[i - 1]
    requires forall i | c <= i < |l| :: m[i] == l[i]
    requires forall i | r <= i < c - 1 :: l[i] != pic
    ensures r < n ==> m[..n] == Insert(l[..n], r, pic)
    ensures r >= n ==> m[..n] == l[..n]
  {
    if r < n {
      var a := l[..n];
      InsertRotates(a, r, pic, c - 1);
      hide TailDistinct, Insert, Rotated;
      var t := Rotated(a, r, pic, c);
      forall i | 0 <= i < n
        ensures m[i] == t[i]
      {
        RotatedAt(a, r, pic, c, i);
      }
      assert m[..n] == t;
    }
  }

  /** The list after the first k commands, each placing its picture after those before. */
  function Modified(l: seq<int>, pics: seq<int>, k: nat): (m: seq<int>)
    requires k <= |pics|
    ensures |m| == |l|
  {
    if k == 0 then l
    else if k - 1 < |l| then Insert(Modified(l, pics, k - 1), k - 1, pics[k - 1])
    else Modified(l, pics, k - 1)
  }

  lemma InsertKeeps(l: seq<int>, r: nat, pic: int)
    requires r < |l| && TailDistinct(l, r) && pic >= 0
    ensures TailDistinct(Insert(l, r, pic), r + 1)
    ensures Insert(l, r, pic)[..r + 1] == l[..r] + [pic]
  {
    var k := r;
    while k < |l| - 1 && l[k] != pic
      invariant r <= k < |l| && forall i | r <= i < k :: l[i] != pic
    {
      k := k + 1;
    }
    InsertRotates(l, r, pic, k);
    RotatedHead(l, r, pic, k + 1);
    hide Insert, Rotated;
    var m := Insert(l, r, pic);
    forall i, j | r + 1 <= i < j < |m| && m[i] >= 0
      ensures m[i] != m[j]
    {
      RotatedAt(l, r, pic, k + 1, i);
      RotatedAt(l, r, pic, k + 1, j);
    }
  }

  lemma {:induction false} ModifiedKeeps(l: seq<int>, pics: seq<int>, k: nat)
    requires k <= |pics| && TailDistinct(l, 0) && forall i | 0 <= i < |pics| :: pics[i] >= 0
    ensures TailDistinct(Modified(l, pics, k), k)
  {
    if k > 0 {
      ModifiedKeeps(l, pics, k - 1);
      if k - 1 < |l| {
        InsertKeeps(Modified(l, pics, k - 1), k - 1, pics[k - 1]);
      }
    }
  }

  /** The commands put their pictures at the head of the list, in their order. */
  lemma {:induction false} ModifiedHead(l: seq<int>, pics: seq<int>, k: nat, i: nat)
    requires k <= |pics| && TailDistinct(l, 0) && (forall i | 0 <= i < |pics| :: pics[i] >= 0) && i < k && i < |l|
    ensures Modified(l, pics, k)[i] == pics[i]
  {
    ModifiedKeeps(l, pics, k - 1);
    if k - 1 < |l| {
      var m := Modified(l, pics, k - 1);
      InsertKeeps(m, k - 1, pics[k - 1]);
      assert Modified(l, pics, k)[i] == Modified(l, pics, k)[..k][i];
      if i < k - 1 {
        ModifiedHead(l, pics, k - 1, i);
        assert (m[..k - 1] + [pics[k - 1]])[i] == m[i];
      }
    } else {
      ModifiedHead(l, pics, k - 1, i);
    }
  }

  /** All commands that resolve to pictures, on the n active entries. */
  method Modify(list: array<int>, pics: seq<int>, n: nat)
    requires n <= list.Length && |pics| <= list.Length && TailDistinct(list[..n], 0)
    requires forall i | 0 <= i < |pics| :: pics[i] >= 0
    modifies list
    ensures list[..n] == Modified(old(list[..n]), pics, |pics|)
  {
    ghost var l := list[..n];
    for refIdx := 0 to |pics|
      invariant list[..n] == Modified(l, pics, refIdx)
    {
      ModifiedKeeps(l, pics, refIdx);
      Swap(list, refIdx, pics[refIdx], n);
    }
  }

  lemma {:induction false} WithoutAppend(l: seq<int>, x: int, pic: int)
    ensures Without(l + [x], pic) == Without(l, pic) + if x == pic then [] else [x]
  {
    if l == [] {
      assert [x][1..] == [];
      assert Without([], pic) == [];
    } else {
      WithoutAppend(l[1..], x, pic);
      assert (l + [x])[1..] == l[1..] + [x];
    }
  }

  lemma WithoutFew(l: seq<int>, r: nat, pic: int)
    requires r < |l| && TailDistinct(l, r) && pic >= 0
    ensures |Without(l[r..], pic)| >= |l| - r - 1
  {
    var t := l[r..];
    if pic in t {
      var k :| 0 <= k < |t| && t[k] == pic;
      forall i | 0 <= i < |t| && i != k
        ensures t[i] != pic
      {
        assert t[i] == l[r + i] && t[k] == l[r + k];
      }
      WithoutOne(t, pic, k);
    } else {
      WithoutNone(t, pic);
    }
  }

  // The first loop of 8.2.4.3.1, on a list one entry longer, and the picture in its place.
  method MoveUp(l: seq<int>, r: nat, pic: int) returns (t: seq<int>)
    requires r < |l|
    ensures t == l[..r] + [pic] + l[r..]
  {
    var n := |l|;
    t := l + [0];
    var c := n;
    while c > r
      invariant r <= c <= n && |t| == n + 1
      invariant forall i | 0 <= i < c :: t[i] == l[i]
      invariant forall i | c < i <= n :: t[i] == l[i - 1]
    {
      t := t[c := t[c - 1]];
      c := c - 1;
    }
    t := t[r := pic];
  }

  /** The loops of 8.2.4.3.1: the entries after place r move on, and other entries of the picture are dropped. */
  method StandardInsert(l: seq<int>, r: nat, pic: int) returns (m: seq<int>)
    requires r < |l| && TailDistinct(l, r) && pic >= 0
    ensures m == Insert(l, r, pic)
  {
    hide TailDistinct, Insert, Without;
    var n := |l|;
    var t := MoveUp(l, r, pic);
    assert Without([], pic) == [] by { WithoutNone([], pic); }
    ghost var head, tail := l[..r] + [pic], l[r..];
    var nIdx, c := r + 1, r + 1;
    while c <= n
      invariant r + 1 <= nIdx <= c <= n + 1 && |t| == n + 1
      invariant forall i | c <= i <= n :: t[i] == l[i - 1]
      invariant t[..nIdx] == head + Without(tail[..c - r - 1], pic)
    {
      WithoutAppend(tail[..c - r - 1], t[c], pic);
      assert tail[..c - r] == tail[..c - r - 1] + [t[c]];
      if t[c] != pic {
        t := t[nIdx := t[c]];
        nIdx := nIdx + 1;
      }
      c := c + 1;
    }
    assert tail[..n - r] == tail;
    WithoutFew(l, r, pic);
    WithoutLength(tail, pic);
    m := t[..n];
    assert m == (head + Without(tail, pic))[..n];
    InsertHead(l, r, pic);
  }

  lemma InsertHead(l: seq<int>, r: nat, pic: int)
    requires r < |l| && |Without(l[r..], pic)| >= |l| - r - 1
    ensures Insert(l, r, pic) == (l[..r] + [pic] + Without(l[r..], pic))[..|l|]
  {
  }

  // --- numbers in modification commands ---

  // A command adds or subtracts a difference, coded minus 1.
  function Delta(command: (bool, nat)): int {
    var d: int := command.1 + 1;
    if command.0 then d else -d
  }

  /** The running picNumLX of the code, in 32 bits. */
  function CodeNum(current: nat, commands: seq<(bool, nat)>): nat {
    if commands == [] then current % 0x1_0000_0000
    else
      var k := |commands| - 1;
      (CodeNum(current, commands[..k]) + Delta(commands[k])) % 0x1_0000_0000
  }

  /** picNumLXNoWrap of 8.2.4.3.1 (8-34, 8-35), starting from frame_num. */
  function SpecNum(frameNum: nat, commands: seq<(bool, nat)>, m: nat): int {
    if commands == [] then frameNum
    else
      var k := |commands| - 1;
      BackInRange(SpecNum(frameNum, commands[..k], m) + Delta(commands[k]), m)
  }

  function BackInRange(x: int, m: nat): int {
    if x < 0 then x + m else if x >= m then x - m else x
  }

  lemma {:induction false} SpecNumRange(frameNum: nat, commands: seq<(bool, nat)>, m: nat)
    requires frameNum < m && forall c | c in commands :: c.1 < m
    ensures 0 <= SpecNum(frameNum, commands, m) < m
  {
    if commands != [] {
      SpecNumRange(frameNum, commands[..|commands| - 1], m);
      assert commands[|commands| - 1] in commands;
    }
  }

  // Residues modulo a divisor of the word size survive the wrap.
  lemma WrapResidue(x: int, m: nat, j: nat)
    requires m > 0 && m * j == 0x1_0000_0000
    ensures x % 0x1_0000_0000 % m == x % m
  {
    var q := x / 0x1_0000_0000;
    assert x == q * (m * j) + x % 0x1_0000_0000;
    assert q * (m * j) == q * j * m;
    Counters.ModShift(x % 0x1_0000_0000, q * j, m);
  }

  lemma StepResidue(a: int, b: int, d: int, m: nat)
    requires m > 0 && a % m == b % m
    ensures (a + d) % m == BackInRange(b + d, m) % m
  {
    SameStep(a, b, d, m);
    BackResidue(b + d, m);
  }

  lemma SameStep(a: int, b: int, d: int, m: nat)
    requires m > 0 && a % m == b % m
    ensures (a + d) % m == (b + d) % m
  {
    Counters.SameResidue(a, b, m);
    Counters.SameResidue(a + d, b + d, m);
    assert a + d - (b + d) == a - b;
  }

  lemma BackResidue(x: int, m: nat)
    requires m > 0
    ensures BackInRange(x, m) % m == x % m
  {
    var one, minus := 1, -1;
    Counters.ModShift(x, one, m);
    Counters.ModShift(x, minus, m);
  }

  lemma {:induction false} NumbersAgree(current: nat, commands: seq<(bool, nat)>, m: nat, j: nat)
    requires m > 0 && m * j == 0x1_0000_0000
    ensures CodeNum(current, commands) % m == SpecNum(current % m, commands, m) % m
    decreases |commands|
  {
    if commands == [] {
      WrapResidue(current, m, j);
      Digits(current % m, 0, current % m, m);
    } else {
      hide BackInRange, Delta;
      var k := |commands| - 1;
      NumbersAgree(current, commands[..k], m, j);
      var d := Delta(commands[k]);
      WrapResidue(CodeNum(current, commands[..k]) + d, m, j);
      StepResidue(CodeNum(current, commands[..k]), SpecNum(current % m, commands[..k], m), d, m);
    }
  }

  /**
   * The code, which compares frame numbers under a mask, finds the short-term reference whose PicNum is
   * the picNumLX of the standard.
   */
  lemma CommandFinds(current: nat, ref: int, commands: seq<(bool, nat)>, m: nat, j: nat)
    requires m > 0 && m * j == 0x1_0000_0000 && current - m < ref <= current && forall c | c in commands :: c.1 < m
    ensures var noWrap := SpecNum(current % m, commands, m);
            var picNumLX := if noWrap > current % m then noWrap - m else noWrap;
            ref % m == CodeNum(current, commands) % m <==>
            Counters.FrameNumWrap(ref % m, current % m, m) == picNumLX
  {
    var noWrap := SpecNum(current % m, commands, m);
    NumbersAgree(current, commands, m, j);
    SpecNumRange(current % m, commands, m);
    Digits(noWrap, 0, noWrap, m);
  }

  /** The replacement of entries that name no picture, or the current one; without any other picture it fails. */
  method FixUp(list: array<int>, n: nat, current: int) returns (ok: bool)
    requires n <= list.Length
    modifies list
    ensures ok <==> exists i | 0 <= i < n :: Usable(old(list[i]), current)
    ensures !ok ==> list[..] == old(list[..])
    ensures ok ==> forall i | 0 <= i < n :: Usable(list[i], current)
    ensures ok ==> forall i | 0 <= i < n :: Usable(old(list[i]), current) ==> list[i] == old(list[i])
    ensures forall i | n <= i < list.Length :: list[i] == old(list[i])
  {
    var valid := -1;
    var i := 0;
    while i < n && valid < 0
      invariant 0 <= i <= n && list[..] == old(list[..])
      invariant valid >= 0 ==> Usable(valid, current) && exists j | 0 <= j < i :: list[j] == valid
      invariant valid < 0 ==> forall j | 0 <= j < i :: !Usable(list[j], current)
    {
      if Usable(list[i], current) {
        valid := list[i];
      }
      i := i + 1;
    }
    if valid < 0 {
      return false;
    }
    for k := 0 to n
      invariant forall j | 0 <= j < k :: Usable(list[j], current)
      invariant forall j | 0 <= j < k :: Usable(old(list[j]), current) ==> list[j] == old(list[j])
      invariant forall j | k <= j < list.Length :: list[j] == old(list[j])
    {
      if !Usable(list[k], current) {
        list[k] := valid;
      }
    }
    ok := true;
  }

  predicate Usable(pic: int, current: int) {
    0 <= pic < MAX_FRAMES && pic != current
  }
}
