/**
 * Decoded reference picture marking of frame pictures (clause 8.2.5 of H.264), for one view: sets of
 * slots marked as references, of which a frame inferred for a gap in frame_num is in both.
 */
module Marking {
  import opened Sets

  /** The number of slots of the decoded picture buffer. */
  const MAX_FRAMES: nat := 128
  const INT_MAX := 0x7FFF_FFFF

  type Slot = j: nat | j < MAX_FRAMES
  type Num = x: int | x < INT_MAX
  type Index = x: nat | x < INT_MAX

  /** Memory management control operations 1 to 6 (7.4.3.3), with the syntax elements of each. */
  datatype Mmco =
    | UnmarkShort(difference: nat)
    | UnmarkLong(index: Index)
    | MakeLong(difference: nat, index: Index)
    | TruncateLong(index: Index)
    | Reset
    | CurrentLong(index: Index)

  /** The marking worked on: short-term, long-term, indices, and whether the current picture turns long-term. */
  datatype Refs = Refs(shorts: set<Slot>, longs: set<Slot>, indices: seq<Num>, currentLong: bool) {
    ghost predicate Valid() {
      |indices| == MAX_FRAMES
    }

    // All references, and the long-term ones (frames inferred for a gap are in both sets).
    function All(): set<Slot> {
      shorts + longs
    }

    function Count(): nat {
      Popcount(shorts, longs)
    }

    function LongOnly(): set<Slot> {
      longs - shorts
    }

    function Drop(j: Slot): Refs {
      this.(shorts := shorts - {j}, longs := longs - {j})
    }
  }

  // mask_popcount of two masks
  function Popcount(shorts: set<Slot>, longs: set<Slot>): nat {
    |shorts + longs|
  }

  lemma PopcountDrop(shorts: set<Slot>, longs: set<Slot>, j: Slot)
    requires j in shorts + longs
    ensures Popcount(shorts - {j}, longs - {j}) == Popcount(shorts, longs) - 1
  {
    assert shorts - {j} + (longs - {j}) == shorts + longs - {j};
  }

  lemma PopcountPositive(shorts: set<Slot>, longs: set<Slot>)
    requires Popcount(shorts, longs) > 0
    ensures shorts != {} || longs != {}
  {
  }

  // Short-term slots with this FrameNum, and long-term slots with an index in a range.
  function Numbered(shorts: set<Slot>, nums: seq<Num>, frameNum: int): set<Slot>
    requires |nums| == MAX_FRAMES
  {
    set j | j in shorts && nums[j] == frameNum
  }

  function Indexed(m: Refs, lo: int, up: int): set<Slot>
    requires m.Valid()
  {
    set j | j in m.LongOnly() && lo <= m.indices[j] <= up
  }

  lemma IndexedAbove(m: Refs, lo: int)
    requires m.Valid()
    ensures Indexed(m, lo, INT_MAX) == set j | j in m.LongOnly() && m.indices[j] >= lo
  {
  }

  function Greatest(s: set<Slot>, n: nat, default: Slot): (r: Slot)
    requires n <= MAX_FRAMES
    ensures if exists j | 0 <= j < n :: j in s then r in s && r < n
        && (forall j | r < j < n :: j !in s) else r == default
  {
    if n == 0 then default else if n - 1 in s then n - 1 else Greatest(s, n - 1, default)
  }

  /** 8.2.5.4: what one operation does, with nums the frame numbers of all slots, cur the current slot. */
  function Apply(m: Refs, op: Mmco, cur: Slot, frameNum: int, nums: seq<Num>, view: set<Slot>): (r: Refs)
    requires m.Valid() && |nums| == MAX_FRAMES
    ensures r.Valid()
  {
    match op
    case UnmarkShort(difference) =>
      var gone := Numbered(m.shorts, nums, frameNum - 1 - difference);
      m.(shorts := m.shorts - gone, longs := m.longs - gone)
    case UnmarkLong(index) =>
      m.(longs := m.longs - Indexed(m, index, index))
    case MakeLong(difference, index) =>
      var gone := Numbered(m.shorts, nums, frameNum - 1 - difference);
      var target := Greatest(gone, MAX_FRAMES, cur);
      var n := m.(shorts := m.shorts - gone, longs := m.longs - gone);
      n.(longs := n.longs - Indexed(n, index, index) + (if target != cur then {target} else {}),
         indices := n.indices[target := index])
    case TruncateLong(index) =>
      m.(longs := m.longs - (set j | j in m.LongOnly() && m.indices[j] >= index))
    case Reset =>
      m.(shorts := {}, longs := {},
         indices := seq(MAX_FRAMES, j requires 0 <= j < MAX_FRAMES => if j in view then 0 else m.indices[j]))
    case CurrentLong(index) =>
      m.(longs := m.longs - Indexed(m, index, index), indices := m.indices[cur := index], currentLong := true)
  }

  function ApplyAll(m: Refs, ops: seq<Mmco>, cur: Slot, frameNum: int, nums: seq<Num>, view: set<Slot>): (r: Refs)
    requires m.Valid() && |nums| == MAX_FRAMES
    ensures r.Valid()
  {
    if ops == [] then m
    else Apply(ApplyAll(m, ops[..|ops| - 1], cur, frameNum, nums, view), ops[|ops| - 1], cur, frameNum, nums, view)
  }

  // The operations that count.
  function FirstOps<T>(ops: seq<T>): seq<T> {
    ops[..if |ops| < 32 then |ops| else 32]
  }

  // j is the slot of the lowest number, the lowest slot of equal ones.
  ghost predicate Oldest(j: Slot, s: set<Slot>, nums: seq<Num>)
    requires |nums| == MAX_FRAMES
  {
    j in s && forall k | k in s :: nums[j] < nums[k] || (nums[j] == nums[k] && j <= k)
  }

  /** The loops that look for the lowest number, from INT_MAX down. */
  method FindOldest(s: set<Slot>, nums: seq<Num>) returns (next: Slot)
    requires s != {} && |nums| == MAX_FRAMES
    ensures Oldest(next, s, nums)
  {
    var best := INT_MAX;
    next := 0;
    for i := 0 to MAX_FRAMES
      invariant best < INT_MAX ==> next in s && best == nums[next] && next < i
      invariant forall k | k in s && k < i :: best < nums[k] || (best == nums[k] && next <= k)
    {
      if i in s && best > nums[i] {
        best, next := nums[i], i;
      }
    }
    ghost var k :| k in s;
  }

  // --- sizes of sets ---

  lemma OldestSame(j: Slot, s: set<Slot>, nums: seq<Num>, others: seq<Num>)
    requires |nums| == MAX_FRAMES == |others| && (forall k | k in s :: nums[k] == others[k]) && Oldest(j, s, nums)
    ensures OldestOf(s, others) == j
  {
    OldestUnique(j, OldestOf(s, others), s, others);
  }

  lemma {:induction false} OldestExists(s: set<Slot>, nums: seq<Num>)
    requires s != {} && |nums| == MAX_FRAMES
    ensures exists j :: Oldest(j, s, nums)
    decreases |s|
  {
    var k :| k in s;
    if s == {k} {
      assert Oldest(k, s, nums);
    } else {
      OldestExists(s - {k}, nums);
      var j :| Oldest(j, s - {k}, nums);
      assert Oldest(j, s, nums) || Oldest(k, s, nums);
    }
  }

  ghost function OldestOf(s: set<Slot>, nums: seq<Num>): (j: Slot)
    requires s != {} && |nums| == MAX_FRAMES
    ensures Oldest(j, s, nums)
  {
    OldestExists(s, nums);
    var j :| Oldest(j, s, nums);
    j
  }

  lemma OldestUnique(i: Slot, j: Slot, s: set<Slot>, nums: seq<Num>)
    requires |nums| == MAX_FRAMES
    requires Oldest(i, s, nums) && Oldest(j, s, nums)
    ensures i == j
  {
  }

  // --- what the operations leave ---

  /**
   * 8.2.5.4 slot by slot: the short-term frames of the number named go, long-term frames go by their index, the
   * last frame named turns long-term with the index given, and all others keep their marks and indices.
   */
  lemma ApplyMeans(m: Refs, op: Mmco, cur: Slot, frameNum: int, nums: seq<Num>, view: set<Slot>, j: Slot)
    requires m.Valid() && |nums| == MAX_FRAMES
    ensures var r := Apply(m, op, cur, frameNum, nums, view);
            match op
            case UnmarkShort(difference) =>
              var named := j in m.shorts && nums[j] == frameNum - 1 - difference;
              && (j in r.shorts <==> j in m.shorts && !named)
              && (j in r.longs <==> j in m.longs && !named)
              && r.indices[j] == m.indices[j] && r.currentLong == m.currentLong
            case UnmarkLong(index) =>
              && (j in r.shorts <==> j in m.shorts)
              && (j in r.longs <==> j in m.longs && (j in m.shorts || m.indices[j] != index))
              && r.indices[j] == m.indices[j] && r.currentLong == m.currentLong
            case MakeLong(difference, index) =>
              var named := j in m.shorts && nums[j] == frameNum - 1 - difference;
              var last := named && forall k: Slot | k in m.shorts && j < k :: nums[k] != frameNum - 1 - difference;
              var nobody := forall k: Slot | k in m.shorts :: nums[k] != frameNum - 1 - difference;
              && (j in r.shorts <==> j in m.shorts && !named)
              && (j in r.longs <==>
                  if named then last && j != cur else j in m.longs && (j in m.shorts || m.indices[j] != index))
              && r.indices[j] == (if last || (nobody && j == cur) then index else m.indices[j])
              && r.currentLong == m.currentLong
            case TruncateLong(index) =>
              && (j in r.shorts <==> j in m.shorts)
              && (j in r.longs <==> j in m.longs && (j in m.shorts || m.indices[j] < index))
              && r.indices[j] == m.indices[j] && r.currentLong == m.currentLong
            case Reset =>
              && j !in r.shorts && j !in r.longs
              && r.indices[j] == (if j in view then 0 else m.indices[j]) && r.currentLong == m.currentLong
            case CurrentLong(index) =>
              && (j in r.shorts <==> j in m.shorts)
              && (j in r.longs <==> j in m.longs && (j in m.shorts || m.indices[j] != index))
              && r.indices[j] == (if j == cur then index else m.indices[j]) && r.currentLong
  {
    if op.MakeLong? {
      var gone := Numbered(m.shorts, nums, frameNum - 1 - op.difference);
      var target := Greatest(gone, MAX_FRAMES, cur);
      if k :| k in m.shorts && nums[k] == frameNum - 1 - op.difference {
        assert k in gone;
        assert target in gone && forall i: Slot | target < i :: i !in gone;
      }
      assert forall k: Slot :: k in gone <==> k in m.shorts && nums[k] == frameNum - 1 - op.difference;
    }
  }

  // An operation takes the mark of a long-term frame with this index away.
  predicate Unmarks(op: Mmco, index: int) {
    match op
    case UnmarkShort(_) => false
    case UnmarkLong(x) => index == x
    case MakeLong(_, x) => index == x
    case TruncateLong(x) => x <= index
    case Reset => true
    case CurrentLong(x) => index == x
  }

  /**
   * A frame that is long-term after n operations stays so, with its index, exactly if no later one takes an index
   * range that holds it; the current picture can be given another index.
   */
  lemma {:induction false} LongsLeft(m: Refs, ops: seq<Mmco>, n: nat, cur: Slot, frameNum: int, nums: seq<Num>,
        view: set<Slot>, j: Slot)
    requires m.Valid() && |nums| == MAX_FRAMES && n <= |ops| && j != cur
    requires j in ApplyAll(m, ops[..n], cur, frameNum, nums, view).LongOnly()
    ensures var index := ApplyAll(m, ops[..n], cur, frameNum, nums, view).indices[j];
            var r := ApplyAll(m, ops, cur, frameNum, nums, view);
            && (j in r.longs <==> forall i | n <= i < |ops| :: !Unmarks(ops[i], index))
            && j !in r.shorts && (j in r.longs ==> r.indices[j] == index)
    decreases |ops|
  {
    hide Apply, Unmarks;
    if n == |ops| {
      assert ops[..n] == ops;
    } else {
      var k := |ops| - 1;
      assert ops[..k][..n] == ops[..n];
      LongsLeft(m, ops[..k], n, cur, frameNum, nums, view, j);
      var a := ApplyAll(m, ops[..k], cur, frameNum, nums, view);
      var index := ApplyAll(m, ops[..n], cur, frameNum, nums, view).indices[j];
      LongStep(a, ops[k], cur, frameNum, nums, view, j);
      assert forall i | n <= i < k :: ops[..k][i] == ops[i];
    }
  }

  // One operation, for a frame that is not short-term.
  lemma LongStep(a: Refs, op: Mmco, cur: Slot, frameNum: int, nums: seq<Num>, view: set<Slot>, j: Slot)
    requires a.Valid() && |nums| == MAX_FRAMES && j != cur && j !in a.shorts
    ensures var r := Apply(a, op, cur, frameNum, nums, view);
            && (j in r.longs <==> j in a.longs && !Unmarks(op, a.indices[j]))
            && j !in r.shorts && (j in r.longs ==> r.indices[j] == a.indices[j])
  {
    ApplyMeans(a, op, cur, frameNum, nums, view, j);
    hide Apply;
  }

  // --- the number of references ---

  /** No operation adds a reference: the targets of operation 3 are references already. */
  lemma ApplyShrinks(m: Refs, op: Mmco, cur: Slot, frameNum: int, nums: seq<Num>, view: set<Slot>)
    requires m.Valid() && |nums| == MAX_FRAMES
    ensures Apply(m, op, cur, frameNum, nums, view).All() <= m.All()
  {
  }

  lemma {:induction false} ApplyAllShrinks(m: Refs, ops: seq<Mmco>, cur: Slot, frameNum: int, nums: seq<Num>,
        view: set<Slot>)
    requires m.Valid() && |nums| == MAX_FRAMES
    ensures ApplyAll(m, ops, cur, frameNum, nums, view).All() <= m.All()
    decreases |ops|
  {
    if ops != [] {
      var n := ApplyAll(m, ops[..|ops| - 1], cur, frameNum, nums, view);
      ApplyAllShrinks(m, ops[..|ops| - 1], cur, frameNum, nums, view);
      ApplyShrinks(n, ops[|ops| - 1], cur, frameNum, nums, view);
    }
  }

  // --- long-term frame indices ---

  ghost predicate DistinctIndices(m: Refs)
    requires m.Valid()
  {
    forall i, j | i in m.LongOnly() && j in m.LongOnly() && i != j :: m.indices[i] != m.indices[j]
  }

  // No two long-term frames share an index, the current picture among them if it turns long-term.
  ghost predicate Distinct(m: Refs, cur: Slot)
    requires m.Valid()
  {
    && DistinctIndices(m)
    && (m.currentLong ==> forall j | j in m.LongOnly() && j != cur :: m.indices[j] != m.indices[cur])
  }

  // Operation 3 gives another frame the index of the current picture, which is to turn long-term.
  ghost predicate Clash(m: Refs, op: Mmco, cur: Slot, frameNum: int, nums: seq<Num>)
    requires m.Valid() && |nums| == MAX_FRAMES
  {
    && op.MakeLong? && m.currentLong && op.index == m.indices[cur]
    && exists j | j in m.shorts :: nums[j] == frameNum - 1 - op.difference
  }

  /** An operation keeps the indices distinct exactly if it does not clash with the current picture. */
  lemma IndicesStayDistinct(m: Refs, op: Mmco, cur: Slot, frameNum: int, nums: seq<Num>, view: set<Slot>)
    requires m.Valid() && |nums| == MAX_FRAMES && cur !in m.All() && Distinct(m, cur)
    ensures Distinct(Apply(m, op, cur, frameNum, nums, view), cur) <==> !Clash(m, op, cur, frameNum, nums)
  {
    var r := Apply(m, op, cur, frameNum, nums, view);
    if op.MakeLong? {
      var gone := Numbered(m.shorts, nums, frameNum - 1 - op.difference);
      var target := Greatest(gone, MAX_FRAMES, cur);
      if j :| j in m.shorts && nums[j] == frameNum - 1 - op.difference {
        assert j in gone;
        assert target in gone && target in r.LongOnly();
      }
    }
  }

  // --- the marking of a whole picture ---

  /** 8.2.5.3: at capacity, the short-term (or inferred) frame of lowest FrameNum goes. */
  ghost function Window(m: Refs, nums: seq<Num>, maxRefs: nat): (r: Refs)
    requires m.Valid() && |nums| == MAX_FRAMES
    ensures r.Valid()
  {
    if m.shorts != {} && m.Count() >= maxRefs then m.Drop(OldestOf(m.shorts, nums)) else m
  }

  /** Below capacity nothing goes. At capacity exactly one short-term frame goes, one of lowest number. */
  lemma SlidingMeans(m: Refs, nums: seq<Num>, maxRefs: nat)
    requires m.Valid() && |nums| == MAX_FRAMES
    ensures var w := Window(m, nums, maxRefs);
            if |m.shorts + m.longs| < maxRefs || m.shorts == {} then w == m
            else exists j ::
              && j in m.shorts && (forall k | k in m.shorts :: nums[j] <= nums[k])
              && w == Refs(m.shorts - {j}, m.longs - {j}, m.indices, m.currentLong)
  {
    if m.shorts != {} {
      var j := OldestOf(m.shorts, nums);
      assert j in m.shorts && forall k | k in m.shorts :: nums[j] <= nums[k];
    }
  }

  function WithCurrent(m: Refs, cur: Slot): (r: Refs)
    requires m.Valid()
    ensures r.Valid()
  {
    if m.currentLong then m.(longs := m.longs + {cur}) else m.(shorts := m.shorts + {cur})
  }

  // What a damaged stream may need: one more reference goes, the current picture if need be.
  ghost function Discard(m: Refs, cur: Slot, nums: seq<Num>, maxRefs: nat): (r: Refs)
    requires m.Valid() && |nums| == MAX_FRAMES && m.All() != {}
    ensures r.Valid()
  {
    if m.Count() <= maxRefs then m
    else if m.shorts == {} then m.Drop(OldestOf(m.longs, m.indices))
    else if m.shorts - {cur} == {} then m.Drop(cur)
    else m.Drop(OldestOf(m.shorts - {cur}, nums))
  }

  ghost function Marked(m: Refs, ops: seq<Mmco>, cur: Slot, frameNum: int, nums: seq<Num>, view: set<Slot>,
        maxRefs: nat): (r: Refs)
    requires m.Valid() && |nums| == MAX_FRAMES
    ensures r.Valid()
  {
    Discard(WithCurrent(Window(ApplyAll(m, ops, cur, frameNum, nums, view), nums, maxRefs), cur), cur, nums, maxRefs)
  }

  /** After any list of operations there are at most max_num_ref_frames references. */
  lemma MarkedBound(m: Refs, ops: seq<Mmco>, cur: Slot, frameNum: int, nums: seq<Num>, view: set<Slot>, maxRefs: nat)
    requires m.Valid() && |nums| == MAX_FRAMES && m.Count() <= maxRefs && maxRefs >= 1
    ensures Marked(m, ops, cur, frameNum, nums, view, maxRefs).Count() <= maxRefs
  {
    var a := ApplyAll(m, ops, cur, frameNum, nums, view);
    ApplyAllShrinks(m, ops, cur, frameNum, nums, view);
    CardSubset(a.All(), m.All());
    var w := Window(a, nums, maxRefs);
    assert w.All() <= a.All();
    CardSubset(w.All(), a.All());
    var c := WithCurrent(w, cur);
    assert c.All() == w.All() + {cur};
    DropOne(c, cur, nums, maxRefs);
  }

  /**
   * The current picture ends up marked as the operations say. In a damaged stream where that is too much, the
   * oldest other short-term frame makes room, the current picture itself if it is the only one, and the long-term
   * frame of lowest index if there are only those.
   */
  lemma MarkedMeans(m: Refs, ops: seq<Mmco>, cur: Slot, frameNum: int, nums: seq<Num>, view: set<Slot>, maxRefs: nat)
    requires m.Valid() && |nums| == MAX_FRAMES && cur !in m.All()
    ensures var w := Window(ApplyAll(m, ops, cur, frameNum, nums, view), nums, maxRefs);
            var shorts := if w.currentLong then w.shorts else w.shorts + {cur};
            var longs := if w.currentLong then w.longs + {cur} else w.longs;
            var r := Marked(m, ops, cur, frameNum, nums, view, maxRefs);
            if |shorts + longs| <= maxRefs then r.shorts == shorts && r.longs == longs
            else exists gone: Slot ::
              && r.shorts == shorts - {gone} && r.longs == longs - {gone}
              && Discarded(gone, shorts, longs, w.indices, cur, nums)
  {
    hide ApplyAll, Window, Discarded, Discard;
    var w := Window(ApplyAll(m, ops, cur, frameNum, nums, view), nums, maxRefs);
    DiscardMeans(WithCurrent(w, cur), cur, nums, maxRefs);
  }

  ghost predicate Discarded(gone: Slot, shorts: set<Slot>, longs: set<Slot>, indices: seq<Num>, cur: Slot,
        nums: seq<Num>)
    requires |indices| == MAX_FRAMES == |nums|
  {
    if shorts == {} then gone in longs && forall k | k in longs :: indices[gone] <= indices[k]
    else if shorts == {cur} then gone == cur
    else gone in shorts - {cur} && forall k | k in shorts - {cur} :: nums[gone] <= nums[k]
  }

  lemma DiscardMeans(c: Refs, cur: Slot, nums: seq<Num>, maxRefs: nat)
    requires c.Valid() && |nums| == MAX_FRAMES && c.All() != {}
    ensures if |c.shorts + c.longs| <= maxRefs then Discard(c, cur, nums, maxRefs) == c
            else exists gone: Slot ::
              && Discard(c, cur, nums, maxRefs) == c.Drop(gone)
              && Discarded(gone, c.shorts, c.longs, c.indices, cur, nums)
  {
    hide Oldest;
    if |c.shorts + c.longs| > maxRefs {
      if c.shorts == {} {
        var gone := OldestOf(c.longs, c.indices);
        OldestMeans(gone, c.longs, c.indices);
        assert Discarded(gone, c.shorts, c.longs, c.indices, cur, nums);
      } else if c.shorts - {cur} == {} {
        assert c.shorts == {cur};
        assert Discarded(cur, c.shorts, c.longs, c.indices, cur, nums);
      } else {
        var gone := OldestOf(c.shorts - {cur}, nums);
        OldestMeans(gone, c.shorts - {cur}, nums);
        assert Discarded(gone, c.shorts, c.longs, c.indices, cur, nums);
      }
    }
  }

  lemma OldestMeans(j: Slot, s: set<Slot>, nums: seq<Num>)
    requires |nums| == MAX_FRAMES
    ensures Oldest(j, s, nums) ==> j in s && forall k | k in s :: nums[j] <= nums[k]
  {
  }

  lemma DropOne(c: Refs, cur: Slot, nums: seq<Num>, maxRefs: nat)
    requires c.Valid() && |nums| == MAX_FRAMES && c.All() != {} && c.Count() <= maxRefs + 1 && cur in c.All()
    ensures Discard(c, cur, nums, maxRefs).Count() <= maxRefs
  {
    if c.Count() > maxRefs {
      var j :| j in c.All() && Discard(c, cur, nums, maxRefs) == c.Drop(j);
      assert c.Drop(j).All() == c.All() - {j};
    }
  }

  // The indices are distinct after every operation, and no operation clashes.
  ghost predicate DistinctThroughout(m: Refs, ops: seq<Mmco>, cur: Slot, frameNum: int, nums: seq<Num>, view: set<Slot>)
    requires m.Valid() && |nums| == MAX_FRAMES
  {
    forall k | 0 <= k <= |ops| :: Distinct(ApplyAll(m, ops[..k], cur, frameNum, nums, view), cur)
  }

  ghost predicate NoClash(m: Refs, ops: seq<Mmco>, cur: Slot, frameNum: int, nums: seq<Num>, view: set<Slot>)
    requires m.Valid() && |nums| == MAX_FRAMES
  {
    forall k | 0 <= k < |ops| ::
      !Clash(ApplyAll(m, ops[..k], cur, frameNum, nums, view), ops[k], cur, frameNum, nums)
  }

  lemma ApplyAllLast(m: Refs, ops: seq<Mmco>, cur: Slot, frameNum: int, nums: seq<Num>, view: set<Slot>)
    requires m.Valid() && |nums| == MAX_FRAMES
    ensures ApplyAll(m, ops, cur, frameNum, nums, view) ==
            if ops == [] then m
            else Apply(ApplyAll(m, ops[..|ops| - 1], cur, frameNum, nums, view), ops[|ops| - 1], cur, frameNum, nums,
                view)
  {
  }

  /** Long-term frames have distinct indices all along a list of operations exactly if none of them clashes. */
  lemma {:induction false} StaysDistinct(m: Refs, ops: seq<Mmco>, cur: Slot, frameNum: int, nums: seq<Num>,
        view: set<Slot>)
    requires m.Valid() && |nums| == MAX_FRAMES && cur !in m.All() && Distinct(m, cur)
    ensures DistinctThroughout(m, ops, cur, frameNum, nums, view) <==> NoClash(m, ops, cur, frameNum, nums, view)
    decreases |ops|
  {
    hide Distinct, Clash, Apply, ApplyAll;
    ApplyAllLast(m, ops, cur, frameNum, nums, view);
    if ops == [] {
      assert ops[..0] == [];
    } else {
      var k := |ops| - 1;
      var n := ApplyAll(m, ops[..k], cur, frameNum, nums, view);
      StaysDistinct(m, ops[..k], cur, frameNum, nums, view);
      ApplyAllShrinks(m, ops[..k], cur, frameNum, nums, view);
      assert forall i | 0 <= i <= k :: ops[..k][..i] == ops[..i];
      assert ops[..|ops|] == ops;
      if Distinct(n, cur) {
        IndicesStayDistinct(n, ops[k], cur, frameNum, nums, view);
      }
      assert DistinctThroughout(m, ops, cur, frameNum, nums, view) <==>
             DistinctThroughout(m, ops[..k], cur, frameNum, nums, view)
             && Distinct(Apply(n, ops[k], cur, frameNum, nums, view), cur);
      assert DistinctThroughout(m, ops[..k], cur, frameNum, nums, view) ==> Distinct(n, cur) by {
        assert ops[..k][..k] == ops[..k];
      }
    }
  }

  // An operation takes the short-term reference of this frame number away.
  predicate Removes(op: Mmco, frameNum: int, num: int) {
    op.Reset? || ((op.UnmarkShort? || op.MakeLong?) && frameNum - 1 - op.difference == num)
  }

  // After these operations there is a short-term reference left of this frame number.
  ghost predicate Matched(shorts: set<Slot>, ops: seq<Mmco>, frameNum: int, nums: seq<Num>, num: int)
    requires |nums| == MAX_FRAMES
  {
    (exists j | j in shorts :: nums[j] == num) && forall i | 0 <= i < |ops| :: !Removes(ops[i], frameNum, num)
  }

  /**
   * The index of the current picture after a list of operations, -1 without an operation 6. It is given by
   * operation 6, and by every operation 3 behind one that finds no short-term reference.
   */
  ghost function CurrentIndex(shorts: set<Slot>, ops: seq<Mmco>, frameNum: int, nums: seq<Num>, inView: bool): int
    requires |nums| == MAX_FRAMES
  {
    if ops == [] then -1
    else
      var rest, op := ops[..|ops| - 1], ops[|ops| - 1];
      var was := CurrentIndex(shorts, rest, frameNum, nums, inView);
      if op.CurrentLong? then op.index
      else if was < 0 then was
      else if op.MakeLong? && !Matched(shorts, rest, frameNum, nums, frameNum - 1 - op.difference) then op.index
      else if op.Reset? && inView then 0
      else was
  }

  // Operation k is an operation 3 that finds a reference and repeats the index of the current picture.
  ghost predicate Repeats(shorts: set<Slot>, ops: seq<Mmco>, k: nat, frameNum: int, nums: seq<Num>, inView: bool)
    requires |nums| == MAX_FRAMES && k < |ops|
  {
    && ops[k].MakeLong? && ops[k].index == CurrentIndex(shorts, ops[..k], frameNum, nums, inView)
    && Matched(shorts, ops[..k], frameNum, nums, frameNum - 1 - ops[k].difference)
  }

  lemma {:induction false} ShortsLeft(m: Refs, ops: seq<Mmco>, cur: Slot, frameNum: int, nums: seq<Num>,
        view: set<Slot>, j: Slot)
    requires m.Valid() && |nums| == MAX_FRAMES
    ensures j in ApplyAll(m, ops, cur, frameNum, nums, view).shorts <==>
            j in m.shorts && forall i | 0 <= i < |ops| :: !Removes(ops[i], frameNum, nums[j])
    decreases |ops|
  {
    if ops != [] {
      var k := |ops| - 1;
      ShortsLeft(m, ops[..k], cur, frameNum, nums, view, j);
      ShortsStep(ApplyAll(m, ops[..k], cur, frameNum, nums, view), ops[k], cur, frameNum, nums, view, j);
      hide Apply, Removes;
      assert forall i | 0 <= i < k :: ops[..k][i] == ops[i];
    }
  }

  lemma ShortsStep(m: Refs, op: Mmco, cur: Slot, frameNum: int, nums: seq<Num>, view: set<Slot>, j: Slot)
    requires m.Valid() && |nums| == MAX_FRAMES
    ensures j in Apply(m, op, cur, frameNum, nums, view).shorts <==> j in m.shorts && !Removes(op, frameNum, nums[j])
  {
  }

  lemma MatchedMeans(m: Refs, ops: seq<Mmco>, cur: Slot, frameNum: int, nums: seq<Num>, view: set<Slot>, num: int)
    requires m.Valid() && |nums| == MAX_FRAMES
    ensures (exists j | j in ApplyAll(m, ops, cur, frameNum, nums, view).shorts :: nums[j] == num) <==>
            Matched(m.shorts, ops, frameNum, nums, num)
  {
    hide ApplyAll, Removes;
    var a := ApplyAll(m, ops, cur, frameNum, nums, view);
    forall j: Slot
      ensures j in a.shorts <==> j in m.shorts && forall i | 0 <= i < |ops| :: !Removes(ops[i], frameNum, nums[j])
    {
      ShortsLeft(m, ops, cur, frameNum, nums, view, j);
    }
    if Matched(m.shorts, ops, frameNum, nums, num) {
      var j :| j in m.shorts && nums[j] == num;
      assert j in a.shorts;
    }
  }

  // What one operation does to the index of the current picture.
  lemma CurrentStep(m: Refs, op: Mmco, cur: Slot, frameNum: int, nums: seq<Num>, view: set<Slot>)
    requires m.Valid() && |nums| == MAX_FRAMES && cur !in m.All()
    ensures var r := Apply(m, op, cur, frameNum, nums, view);
            && (r.currentLong <==> m.currentLong || op.CurrentLong?)
            && r.indices[cur] ==
               if op.CurrentLong? then op.index
               else if op.MakeLong? && !exists j | j in m.shorts :: nums[j] == frameNum - 1 - op.difference
               then op.index
               else if op.Reset? && cur in view then 0
               else m.indices[cur]
  {
    if op.MakeLong? {
      var gone := Numbered(m.shorts, nums, frameNum - 1 - op.difference);
      if j :| j in m.shorts && nums[j] == frameNum - 1 - op.difference {
        assert j in gone;
        assert Greatest(gone, MAX_FRAMES, cur) in gone;
      }
    }
  }

  lemma {:induction false} CurrentIndexMeans(m: Refs, ops: seq<Mmco>, cur: Slot, frameNum: int, nums: seq<Num>,
        view: set<Slot>)
    requires m.Valid() && |nums| == MAX_FRAMES && cur !in m.All() && !m.currentLong
    ensures var a := ApplyAll(m, ops, cur, frameNum, nums, view);
            var x := CurrentIndex(m.shorts, ops, frameNum, nums, cur in view);
            if a.currentLong then x == a.indices[cur] && x >= 0 else x == -1
    decreases |ops|
  {
    hide Apply, Matched;
    if ops != [] {
      var k := |ops| - 1;
      var n := ApplyAll(m, ops[..k], cur, frameNum, nums, view);
      CurrentIndexMeans(m, ops[..k], cur, frameNum, nums, view);
      ApplyAllShrinks(m, ops[..k], cur, frameNum, nums, view);
      CurrentStep(n, ops[k], cur, frameNum, nums, view);
      if ops[k].MakeLong? {
        MatchedMeans(m, ops[..k], cur, frameNum, nums, view, frameNum - 1 - ops[k].difference);
      }
    }
  }

  /** The condition on the list: no operation 3 repeats the index that the current picture has by then. */
  lemma NoClashList(m: Refs, ops: seq<Mmco>, cur: Slot, frameNum: int, nums: seq<Num>, view: set<Slot>)
    requires m.Valid() && |nums| == MAX_FRAMES && cur !in m.All() && !m.currentLong
    ensures NoClash(m, ops, cur, frameNum, nums, view) <==>
            forall k | 0 <= k < |ops| :: !Repeats(m.shorts, ops, k, frameNum, nums, cur in view)
  {
    hide ApplyAll, CurrentIndex, Matched;
    forall k | 0 <= k < |ops|
      ensures Clash(ApplyAll(m, ops[..k], cur, frameNum, nums, view), ops[k], cur, frameNum, nums) <==>
              Repeats(m.shorts, ops, k, frameNum, nums, cur in view)
    {
      CurrentIndexMeans(m, ops[..k], cur, frameNum, nums, view);
      if ops[k].MakeLong? {
        MatchedMeans(m, ops[..k], cur, frameNum, nums, view, frameNum - 1 - ops[k].difference);
      }
    }
  }

  /** Long-term frames have distinct indices after the marking if no operation clashes. */
  lemma MarkedDistinct(m: Refs, ops: seq<Mmco>, cur: Slot, frameNum: int, nums: seq<Num>, view: set<Slot>, maxRefs: nat)
    requires m.Valid() && |nums| == MAX_FRAMES && cur !in m.All()
    requires Distinct(m, cur) && NoClash(m, ops, cur, frameNum, nums, view)
    ensures DistinctIndices(Marked(m, ops, cur, frameNum, nums, view, maxRefs))
  {
    hide Oldest, ApplyAll, Apply, Distinct, DistinctIndices, Popcount, Window, Discard, NoClash;
    StaysDistinct(m, ops, cur, frameNum, nums, view);
    assert ops[..|ops|] == ops;
    ApplyAllShrinks(m, ops, cur, frameNum, nums, view);
    var a := ApplyAll(m, ops, cur, frameNum, nums, view);
    var w := Window(a, nums, maxRefs);
    WindowDrops(a, nums, maxRefs);
    DropsDistinct(a, w, cur);
    WithCurrentDistinct(w, cur);
    var c := WithCurrent(w, cur);
    var d := Discard(c, cur, nums, maxRefs);
    DiscardDrops(c, cur, nums, maxRefs);
    FewerDistinct(c, d);
  }

  lemma WindowDrops(m: Refs, nums: seq<Num>, maxRefs: nat)
    requires m.Valid() && |nums| == MAX_FRAMES
    ensures Window(m, nums, maxRefs) == m || exists j :: Window(m, nums, maxRefs) == m.Drop(j)
  {
  }

  lemma DiscardDrops(m: Refs, cur: Slot, nums: seq<Num>, maxRefs: nat)
    requires m.Valid() && |nums| == MAX_FRAMES && m.All() != {}
    ensures Discard(m, cur, nums, maxRefs) == m || exists j :: Discard(m, cur, nums, maxRefs) == m.Drop(j)
  {
  }

  lemma DropsDistinct(m: Refs, r: Refs, cur: Slot)
    requires m.Valid() && Distinct(m, cur) && cur !in m.All()
    requires r == m || exists j :: r == m.Drop(j)
    ensures r.Valid() && Distinct(r, cur) && cur !in r.All()
  {
  }

  lemma WithCurrentDistinct(m: Refs, cur: Slot)
    requires m.Valid() && Distinct(m, cur) && cur !in m.All()
    ensures DistinctIndices(WithCurrent(m, cur))
  {
  }

  lemma FewerDistinct(m: Refs, r: Refs)
    requires m.Valid() && DistinctIndices(m) && (r == m || exists j :: r == m.Drop(j))
    ensures r.Valid() && DistinctIndices(r)
  {
  }

  /** An operation 3 that repeats the index of an operation 6 leaves two frames with that index. */
  lemma RepeatedIndex(zeros: seq<Num>, j: Slot, cur: Slot, index: Index, maxRefs: nat)
    requires |zeros| == MAX_FRAMES && (forall k | 0 <= k < MAX_FRAMES :: zeros[k] == 0)
    requires j != cur  && maxRefs >= 2
    ensures var ops := [CurrentLong(index), MakeLong(0, index)];
            var r := Marked(Refs({j}, {}, zeros, false), ops, cur, 1, zeros, {}, maxRefs);
            r.LongOnly() == {j, cur} && r.indices[j] == r.indices[cur] == index
  {
    hide Oldest, Apply, ApplyAll;
    var m := Refs({j}, {}, zeros, false);
    var a := Apply(m, CurrentLong(index), cur, 1, zeros, {});
    var b := Apply(a, MakeLong(0, index), cur, 1, zeros, {});
    TwoOperations(m, CurrentLong(index), MakeLong(0, index), cur, 1, zeros, {});
    CurrentFirst(zeros, j, cur, index);
    ThenRepeated(a, zeros, j, cur, index);
    var c := WithCurrent(Window(b, zeros, maxRefs), cur);
    assert c.All() == {j, cur};
  }

  lemma TwoOperations(m: Refs, o: Mmco, p: Mmco, cur: Slot, frameNum: int, nums: seq<Num>, view: set<Slot>)
    requires m.Valid() && |nums| == MAX_FRAMES
    ensures ApplyAll(m, [o, p], cur, frameNum, nums, view) ==
            Apply(Apply(m, o, cur, frameNum, nums, view), p, cur, frameNum, nums, view)
  {
    hide Apply;
    assert [o, p][..1] == [o] && [o][..0] == [];
    assert ApplyAll(m, [], cur, frameNum, nums, view) == m;
    assert ApplyAll(m, [o], cur, frameNum, nums, view) == Apply(m, o, cur, frameNum, nums, view);
  }

  lemma CurrentFirst(zeros: seq<Num>, j: Slot, cur: Slot, index: Index)
    requires |zeros| == MAX_FRAMES && j != cur 
    ensures Apply(Refs({j}, {}, zeros, false), CurrentLong(index), cur, 1, zeros, {}) ==
            Refs({j}, {}, zeros[cur := index], true)
  {
    var m := Refs({j}, {}, zeros, false);
    assert m.longs - Indexed(m, index, index) == {};
  }

  lemma ThenRepeated(a: Refs, zeros: seq<Num>, j: Slot, cur: Slot, index: Index)
    requires |zeros| == MAX_FRAMES && j != cur  && zeros[j] == 0
    requires a == Refs({j}, {}, zeros[cur := index], true)
    ensures Apply(a, MakeLong(0, index), cur, 1, zeros, {}) == Refs({}, {j}, zeros[cur := index][j := index], true)
  {
    hide Greatest;
    assert Numbered({j}, zeros, 0) == {j};
    assert Greatest({j}, MAX_FRAMES, cur) == j by {
      assert j in {j};
    }
    var n := a.(shorts := {}, longs := {});
    assert a.shorts - {j} == {} && a.longs - {j} == {};
    assert n.longs - Indexed(n, index, index) + {j} == {j};
  }

  // Frame numbers matter in short-term slots only.
  lemma NumsOfShorts(m: Refs, op: Mmco, cur: Slot, frameNum: int, nums: seq<Num>, others: seq<Num>, view: set<Slot>)
    requires m.Valid() && |nums| == |others| == MAX_FRAMES
    requires forall j | j in m.shorts :: nums[j] == others[j]
    ensures Apply(m, op, cur, frameNum, nums, view) == Apply(m, op, cur, frameNum, others, view)
  {
    if op.UnmarkShort? || op.MakeLong? {
      assert Numbered(m.shorts, nums, frameNum - 1 - op.difference) == Numbered(m.shorts, others,
          frameNum - 1 - op.difference);
    }
  }

  lemma GreatestNext(s: set<Slot>, n: nat, default: Slot)
    requires n < MAX_FRAMES
    ensures Greatest(s, n + 1, default) == if n in s then n else Greatest(s, n, default)
  {
  }

  /** m keeps the newest of the short-term references of a, and loses long-term ones only without any of those. */
  ghost predicate Newest(a: Refs, m: Refs, nums: seq<Num>)
    requires a.Valid() && |nums| == MAX_FRAMES
  {
    && m.shorts <= a.shorts && m.longs <= a.longs && m.LongOnly() <= a.LongOnly() && m.indices == a.indices
    && (forall d, k | d in a.shorts - m.shorts && k in m.shorts :: nums[d] <= nums[k])
    && (m.shorts != {} ==> m.LongOnly() == a.LongOnly())
    && forall d, k | d in a.LongOnly() - m.longs && k in m.longs :: m.indices[d] <= m.indices[k]
  }

  lemma NewestSelf(a: Refs, nums: seq<Num>)
    requires a.Valid() && |nums| == MAX_FRAMES
    ensures Newest(a, a, nums)
  {
  }

  lemma NewestSubset(a: Refs, m: Refs, nums: seq<Num>)
    requires a.Valid() && |nums| == MAX_FRAMES && Newest(a, m, nums)
    ensures m.shorts + m.longs <= a.shorts + a.longs
  {
  }

  lemma NewestStep(a: Refs, m: Refs, nums: seq<Num>, j: Slot)
    requires a.Valid() && |nums| == MAX_FRAMES && Newest(a, m, nums)
    requires if m.shorts != {} then Oldest(j, m.shorts, nums) else Oldest(j, m.longs, m.indices)
    ensures Newest(a, m.Drop(j), nums)
  {
  }

  lemma CardSplit(shorts: set<Slot>, longs: set<Slot>)
    ensures Popcount(shorts, longs) == Card(shorts) + Card(longs - shorts)
  {
    assert shorts + longs == shorts + (longs - shorts);
  }

  // Slots to be allocated, none twice.
  ghost predicate Fresh(free: seq<Slot>, taken: set<Slot>) {
    (forall i | 0 <= i < |free| :: free[i] !in taken) && forall i, j | 0 <= i < j < |free| :: free[i] != free[j]
  }

  // kept are the newest of the short-term frames.
  ghost predicate NewestKept(was: set<Slot>, kept: set<Slot>, nums: seq<Num>)
    requires |nums| == MAX_FRAMES
  {
    kept <= was && forall d, k | d in was - kept && k in kept :: nums[d] <= nums[k]
  }

  lemma NewestKeptStep(was: set<Slot>, kept: set<Slot>, nums: seq<Num>, j: Slot)
    requires |nums| == MAX_FRAMES && NewestKept(was, kept, nums) && Oldest(j, kept, nums)
    ensures NewestKept(was, kept - {j}, nums)
  {
  }

  // The first n free slots.
  ghost function Taken(free: seq<Slot>, n: nat): set<Slot>
    requires n <= |free|
  {
    set i | 0 <= i < n :: free[i]
  }

  lemma {:induction false} TakenDisjoint(free: seq<Slot>, taken: set<Slot>, n: nat)
    requires Fresh(free, taken) && n <= |free|
    ensures Taken(free, n) !! taken && Card(Taken(free, n)) == n
  {
    if n == 0 {
      assert Taken(free, 0) == {};
    } else {
      TakenDisjoint(free, taken, n - 1);
      assert Taken(free, n) == Taken(free, n - 1) + {free[n - 1]};
      CardDrop(Taken(free, n), free[n - 1]);
      assert Taken(free, n) - {free[n - 1]} == Taken(free, n - 1);
    }
  }

  lemma FreshLess(free: seq<Slot>, taken: set<Slot>, less: set<Slot>)
    requires Fresh(free, taken) && less <= taken
    ensures Fresh(free, less)
  {
  }

  // Inserting fresh slots in both sets.
  lemma InsertedSets(shorts: set<Slot>, longs: set<Slot>, free: seq<Slot>, n: nat)
    requires Fresh(free, shorts + longs) && n <= |free|
    ensures var t := Taken(free, n);
            && longs + t - (shorts + t) == longs - shorts
            && shorts + t - t == shorts
            && Popcount(shorts + t, longs + t) == Card(shorts) + n + Card(longs - shorts)
  {
    hide Fresh, Card, Popcount;
    var t := Taken(free, n);
    TakenDisjoint(free, shorts + longs, n);
    assert longs + t - (shorts + t) == longs - shorts;
    assert shorts + t - t == shorts;
    CardSplit(shorts + t, longs + t);
    CardJoin(shorts, t);
  }

  /** What filling a gap leaves: the newest short-term frames that fit, and the last missing numbers. */
  ghost predicate Filled(was: set<Slot>, wasNums: seq<Num>, now: set<Slot>, nums: seq<Num>, frameNum: int, prevRef: int,
                         free: seq<Slot>, room: int)
    requires |wasNums| == MAX_FRAMES == |nums|
  {
    var n := if frameNum - prevRef - 1 < room then frameNum - prevRef - 1 else room;
    && 0 <= n <= |free|
    && Taken(free, n) <= now
    && NewestKept(was, now - Taken(free, n), wasNums)
    && Card(now - Taken(free, n)) == (if Card(was) < room - n then Card(was) else room - n)
    && (forall j | j in was :: nums[j] == wasNums[j])
    && forall i | 0 <= i < n :: nums[free[i]] == frameNum - n + i
  }

  /** The reference marking of one view, updated in place. */
  class RefMarking {
    var shorts: set<Slot>
    var longs: set<Slot>
    var indices: seq<Num>
    var frameNums: seq<Num>

    ghost predicate Valid()
      reads this
    {
      |indices| == |frameNums| == MAX_FRAMES
    }

    ghost function State(currentLong: bool): Refs
      reads this
    {
      Refs(shorts, longs, indices, currentLong)
    }

    constructor ()
      ensures Valid() && shorts == {} && longs == {}
    {
      shorts, longs := {}, {};
      indices, frameNums := seq(MAX_FRAMES, j => 0), seq(MAX_FRAMES, j => 0);
    }

    /** Operations 1 and 3: dereference the short-term frames with this number, and name the last one. */
    method UnmarkNumber(num: int, cur: Slot) returns (target: Slot)
      requires Valid()
      modifies this`shorts, this`longs
      ensures var gone := Numbered(old(shorts), frameNums, num);
              shorts == old(shorts) - gone && longs == old(longs) - gone && target == Greatest(gone, MAX_FRAMES, cur)
    {
      target := cur;
      ghost var gone := Numbered(shorts, frameNums, num);
      var r := shorts;
      for j := 0 to MAX_FRAMES
        invariant shorts == old(shorts) - (set k | k in gone && k < j)
        invariant longs == old(longs) - (set k | k in gone && k < j)
        invariant target == Greatest(gone, j, cur)
      {
        GreatestNext(gone, j, cur);
        if j in r && frameNums[j] == num {
          target := j;
          shorts, longs := shorts - {j}, longs - {j};
        }
      }
      assert gone == set k | k in gone && k < MAX_FRAMES;
    }

    /** Operations 2, 3, 4 and 6: dereference long-term frames with an index from lo to up. */
    method UnmarkIndices(lo: int, up: int)
      requires Valid()
      modifies this`longs
      ensures longs == old(longs) - Indexed(old(State(false)), lo, up)
    {
      ghost var gone := Indexed(State(false), lo, up);
      var r := longs - shorts;
      for j := 0 to MAX_FRAMES
        invariant longs == old(longs) - (set k | k in gone && k < j)
      {
        if j in r && indices[j] >= lo && indices[j] <= up {
          longs := longs - {j};
        }
      }
      assert gone == set k | k in gone && k < MAX_FRAMES;
    }

    /** One memory management control operation. */
    method Operate(op: Mmco, cur: Slot, frameNum: int, view: set<Slot>, currentLong: bool) returns (newLong: bool)
      requires Valid() && cur !in shorts
      modifies this
      ensures Valid() && cur !in shorts
      ensures State(newLong) == Apply(old(State(currentLong)), op, cur, frameNum, old(frameNums), view)
      ensures frameNums == if op.Reset? then old(frameNums)[cur := 0] else old(frameNums)
    {
      hide Numbered, Greatest;
      newLong := currentLong;
      match op {
        case UnmarkShort(difference) =>
          var target := UnmarkNumber(frameNum - 1 - difference, cur);
        case UnmarkLong(index) =>
          UnmarkIndices(index, index);
        case MakeLong(difference, index) =>
          var target := UnmarkNumber(frameNum - 1 - difference, cur);
          UnmarkIndices(index, index);
          indices := indices[target := index];
          if target != cur {
            longs := longs + {target};
          }
        case TruncateLong(index) =>
          IndexedAbove(State(currentLong), index);
          UnmarkIndices(index, INT_MAX);
        case Reset =>
          shorts, longs := {}, {};
          frameNums := frameNums[cur := 0];
          var was := indices;
          indices := seq(MAX_FRAMES, j requires 0 <= j < MAX_FRAMES => if j in view then 0 else was[j]);
        case CurrentLong(index) =>
          UnmarkIndices(index, index);
          indices := indices[cur := index];
          newLong := true;
      }
    }

    /** The reference marking of a frame picture (8.2.5.1): IDR, adaptive or sliding window. */
    method Mark(idr: bool, longTerm: bool, ops: seq<Mmco>, cur: Slot, frameNum: int, view: set<Slot>, maxRefs: nat)
      requires Valid() && cur !in shorts + longs && 1 <= maxRefs && Popcount(shorts, longs) <= maxRefs
      modifies this
      ensures Valid() && Popcount(shorts, longs) <= maxRefs
      ensures idr ==> shorts == (if longTerm then {} else {cur}) && longs == if longTerm then {cur} else {}
      ensures !idr ==> exists cl ::
                State(cl) == Marked(old(State(false)), FirstOps(ops), cur, frameNum, old(frameNums), view, maxRefs)
    {
      if idr {
        shorts, longs := if longTerm then {} else {cur}, if longTerm then {cur} else {};
        indices := seq(MAX_FRAMES, j => 0);
        return;
      }
      ghost var cl := MarkNonIdr(ops, cur, frameNum, view, maxRefs);
    }

    method MarkNonIdr(ops: seq<Mmco>, cur: Slot, frameNum: int, view: set<Slot>, maxRefs: nat) returns (ghost cl: bool)
      requires Valid() && cur !in shorts + longs && 1 <= maxRefs && Popcount(shorts, longs) <= maxRefs
      modifies this
      ensures Valid() && Popcount(shorts, longs) <= maxRefs
      ensures State(cl) == Marked(old(State(false)), FirstOps(ops), cur, frameNum, old(frameNums), view, maxRefs)
    {
      hide Apply, ApplyAll, Window, Discard, Oldest, FirstOps, Popcount;
      ghost var m, nums := State(false), frameNums;
      MarkedBound(m, FirstOps(ops), cur, frameNum, nums, view, maxRefs);
      var currentLong := Adapt(ops, cur, frameNum, view);
      ApplyAllShrinks(m, FirstOps(ops), cur, frameNum, nums, view);
      SlideWindow(cur, maxRefs, nums, currentLong);
      if currentLong {
        longs := longs + {cur};
      } else {
        shorts := shorts + {cur};
      }
      DiscardOne(cur, maxRefs, nums, currentLong);
      cl := currentLong;
    }

    // The sliding window, if a short-term reference exists.
    method SlideWindow(cur: Slot, maxRefs: nat, ghost nums: seq<Num>, ghost currentLong: bool)
      requires Valid() && cur !in shorts + longs
      requires |nums| == MAX_FRAMES && (frameNums == nums || frameNums == nums[cur := 0])
      modifies this`shorts, this`longs
      ensures Valid() && State(currentLong) == Window(old(State(currentLong)), nums, maxRefs)
    {
      if shorts != {} && Popcount(shorts, longs) >= maxRefs {
        var next := FindOldest(shorts, frameNums);
        OldestSame(next, shorts, frameNums, nums);
        shorts, longs := shorts - {next}, longs - {next};
      }
    }

    // One reference over the limit goes.
    method DiscardOne(cur: Slot, maxRefs: nat, ghost nums: seq<Num>, ghost currentLong: bool)
      requires Valid() && cur in shorts + longs
      requires |nums| == MAX_FRAMES && (frameNums == nums || frameNums == nums[cur := 0])
      modifies this`shorts, this`longs
      ensures Valid() && State(currentLong) == Discard(old(State(currentLong)), cur, nums, maxRefs)
    {
      hide Oldest, Popcount;
      ghost var c := State(currentLong);
      if Popcount(shorts, longs) > maxRefs {
        var unref := cur;
        if shorts == {} {
          unref := FindOldest(longs, indices);
          OldestSame(unref, longs, indices, indices);
        } else if shorts - {cur} != {} {
          unref := FindOldest(shorts - {cur}, frameNums);
          OldestSame(unref, shorts - {cur}, frameNums, nums);
        }
        assert Discard(c, cur, nums, maxRefs) == c.Drop(unref);
        shorts, longs := shorts - {unref}, longs - {unref};
      }
    }

    /** The loop over the operations, of which 32 count. */
    method Adapt(ops: seq<Mmco>, cur: Slot, frameNum: int, view: set<Slot>) returns (currentLong: bool)
      requires Valid() && cur !in shorts
      modifies this
      ensures Valid() && cur !in shorts
      ensures State(currentLong) == ApplyAll(old(State(false)), FirstOps(ops), cur, frameNum, old(frameNums), view)
      ensures frameNums == old(frameNums) || frameNums == old(frameNums)[cur := 0]
    {
      hide Apply;
      currentLong := false;
      var n := 0;
      ghost var nums := frameNums;
      while n < |ops| && n < 32
        invariant n <= |ops| && n <= 32 && Valid() && cur !in shorts
        invariant frameNums == nums || frameNums == nums[cur := 0]
        invariant State(currentLong) == ApplyAll(old(State(false)), ops[..n], cur, frameNum, nums, view)
      {
        NumsOfShorts(State(currentLong), ops[n], cur, frameNum, frameNums, nums, view);
        currentLong := Operate(ops[n], cur, frameNum, view, currentLong);
        assert ops[..n + 1][..n] == ops[..n];
        n := n + 1;
      }
    }

    /** The trim loop: an SPS that lowers max_num_ref_frames loses the oldest references, short-term ones first. */
    method Trim(maxRefs: nat)
      requires Valid()
      modifies this`shorts, this`longs
      ensures Valid() && Popcount(shorts, longs) <= maxRefs
      ensures shorts + longs == old(shorts + longs) || Popcount(shorts, longs) == maxRefs
      ensures Newest(old(State(false)), State(false), frameNums)
    {
      hide Newest, Oldest, Popcount;
      NewestSelf(State(false), frameNums);
      while Popcount(shorts, longs) > maxRefs
        invariant Valid() && Newest(old(State(false)), State(false), frameNums)
        invariant shorts + longs == old(shorts + longs) || Popcount(shorts, longs) >= maxRefs
        decreases Popcount(shorts, longs)
      {
        var unref;
        ghost var m := State(false);
        if shorts != {} {
          unref := FindOldest(shorts, frameNums);
        } else {
          PopcountPositive(shorts, longs);
          unref := FindOldest(longs, indices);
        }
        NewestStep(old(State(false)), m, frameNums, unref);
        PopcountDrop(shorts, longs, unref);
        shorts, longs := shorts - {unref}, longs - {unref};
      }
    }

    // The loop that dereferences short-term frames for n new ones.
    method Room(n: int, room: int)
      requires Valid() && 0 <= n <= room
      modifies this`shorts, this`longs
      ensures Valid() && NewestKept(old(shorts), shorts, frameNums) && longs - shorts == old(longs - shorts)
      ensures longs <= old(longs)
      ensures Card(shorts) == if Card(old(shorts)) < room - n then Card(old(shorts)) else room - n
    {
      hide Card, Oldest;
      var num := n + Card(shorts);
      while num > room
        invariant Valid() && NewestKept(old(shorts), shorts, frameNums) && longs - shorts == old(longs - shorts)
        invariant longs <= old(longs) && num == n + Card(shorts)
        invariant num == n + Card(old(shorts)) || num >= room
      {
        CardEmpty(shorts);
        var unref := FindOldest(shorts, frameNums);
        NewestKeptStep(old(shorts), shorts, frameNums, unref);
        CardDrop(shorts, unref);
        shorts, longs := shorts - {unref}, longs - {unref};
        num := num - 1;
      }
    }

    // The loop that inserts the last n missing frames.
    method Insert(frameNum: int, n: nat, free: seq<Slot>)
      requires Valid() && n <= |free| && Fresh(free, shorts + longs) && frameNum < INT_MAX
      modifies this`shorts, this`longs, this`frameNums
      ensures Valid() && shorts == old(shorts) + Taken(free, n) && longs == old(longs) + Taken(free, n)
      ensures forall i | 0 <= i < n :: frameNums[free[i]] == frameNum - n + i
      ensures forall j: Slot | j !in Taken(free, n) :: frameNums[j] == old(frameNums[j])
    {
      for k := 0 to n
        invariant Valid() && shorts == old(shorts) + Taken(free, k) && longs == old(longs) + Taken(free, k)
        invariant forall i | 0 <= i < k :: frameNums[free[i]] == frameNum - n + i
        invariant forall j: Slot | j !in Taken(free, k) :: frameNums[j] == old(frameNums[j])
      {
        assert Taken(free, k + 1) == Taken(free, k) + {free[k]};
        shorts, longs := shorts + {free[k]}, longs + {free[k]};
        frameNums := frameNums[free[k] := frameNum - n + k];
      }
    }

    /**
     * Filling a gap in frame_num: room for the last missing numbers is made among the short-term frames,
     * then free slots take those numbers. Fails if long-term frames leave no room.
     */
    method FillGap(frameNum: int, prevRef: int, free: seq<Slot>, maxRefs: nat) returns (ok: bool)
      requires Valid() && Popcount(shorts, longs) <= maxRefs && frameNum - prevRef > 1 && frameNum < INT_MAX
      requires maxRefs <= |free| && Fresh(free, shorts + longs)
      modifies this`shorts, this`longs, this`frameNums
      ensures Valid() && Popcount(shorts, longs) <= maxRefs && longs - shorts == old(longs - shorts)
      ensures ok <==> Card(old(longs - shorts)) < maxRefs
      ensures !ok ==> shorts == old(shorts) && longs == old(longs) && frameNums == old(frameNums)
      ensures shorts + longs <= old(shorts + longs) + Taken(free, |free|)
      ensures ok ==> Filled(old(shorts), old(frameNums), shorts, frameNums, frameNum, prevRef, free,
          maxRefs - Card(longs - shorts))
    {
      hide Card, Popcount, Oldest, Fresh;
      var room := maxRefs - Card(longs - shorts);
      if room <= 0 {
        return false;
      }
      var n := if frameNum - prevRef - 1 < room then frameNum - prevRef - 1 else room;
      Room(n, room);
      CardEmpty(shorts);
      FreshLess(free, old(shorts + longs), shorts + longs);
      TakenDisjoint(free, old(shorts + longs), n);
      InsertedSets(shorts, longs, free, n);
      assert Taken(free, n) <= Taken(free, |free|);
      Insert(frameNum, n, free);
      ok := true;
    }

    /**
     * A picture from any state: trimming, filling a gap and marking end with at most max_num_ref_frames
     * references, which is what the decoder asserts when it adds the picture to the buffer.
     */
    method Picture(idr: bool, reference: bool, longTerm: bool, ops: seq<Mmco>, cur: Slot, frameNum: int, prevRef: int,
                   free: seq<Slot>, view: set<Slot>, maxRefs: nat) returns (ok: bool)
      requires Valid() && cur !in shorts + longs + Taken(free, |free|) && Fresh(free, shorts + longs)
      requires 1 <= maxRefs <= |free| && frameNum < INT_MAX
      modifies this
      ensures Valid() && Popcount(shorts, longs) <= maxRefs
    {
      hide Popcount, Fresh, Newest, Marked, Filled, Card;
      Trim(maxRefs);
      NewestSubset(old(State(false)), State(false), old(frameNums));
      FreshLess(free, old(shorts + longs), shorts + longs);
      ok := true;
      if frameNum - prevRef > 1 && !idr {
        ok := FillGap(frameNum, prevRef, free, maxRefs);
        if !ok {
          return;
        }
      }
      if reference {
        Mark(idr, longTerm, ops, cur, frameNum, view, maxRefs);
      }
    }
  }
}
