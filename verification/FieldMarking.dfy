/**
 * Decoded reference picture marking of field pictures (clause 8.2.5 of H.264): each field of a slot is marked
 * on its own, and a slot is a reference while one of its fields is.
 */
module FieldMarking {
  import opened Marking
  import opened Sets

  /** Memory management control operations 1 to 6 of a field, with the syntax elements of each. */
  datatype FieldOp =
    | UnmarkShort(difference: nat)
    | UnmarkLong(picNum: nat)
    | MakeLong(difference: nat, index: Index)
    | TruncateLong(index: Index)
    | Reset
    | CurrentLong(index: Index)

  /** The marked fields of each parity (0 top, 1 bottom), and the long-term indices of slots. */
  datatype Marks = Marks(short: seq<set<Slot>>, long: seq<set<Slot>>, indices: seq<Num>) {
    ghost predicate Valid() {
      |short| == 2 && |long| == 2 && |indices| == MAX_FRAMES
    }

    function Shorts(): set<Slot>
      requires |short| == 2
    {
      short[0] + short[1]
    }

    function Longs(): set<Slot>
      requires |long| == 2
    {
      long[0] + long[1]
    }

    function LongOnly(): set<Slot>
      requires |short| == 2 && |long| == 2
    {
      Longs() - Shorts()
    }
  }

  // PicNum and LongTermPicNum of a field (8-30 to 8-33).
  function FieldNum(v: int, same: bool): int {
    2 * v + if same then 1 else 0
  }

  /** The field of a slot with a picture number has one parity at most. */
  lemma OneParity(v: int, p: nat, num: int)
    requires p < 2
    ensures !(FieldNum(v, 0 == p) == num && FieldNum(v, 1 == p) == num)
  {
  }

  // The short-term field of a slot and parity has this PicNum.
  predicate Hit(m: Marks, nums: seq<Num>, p: nat, num: int, j: Slot, k: nat)
    requires m.Valid() && |nums| == MAX_FRAMES && k < 2
  {
    j in m.short[k] && FieldNum(nums[j], k == p) == num
  }

  // The first slot from j on with such a field, or -1.
  function Find(m: Marks, nums: seq<Num>, p: nat, num: int, j: nat): (s: int)
    requires m.Valid() && |nums| == MAX_FRAMES && j <= MAX_FRAMES
    ensures -1 <= s < MAX_FRAMES && (s >= 0 ==> Hit(m, nums, p, num, s, 0) || Hit(m, nums, p, num, s, 1))
    ensures s < 0 ==> forall i: Slot | j <= i :: !Hit(m, nums, p, num, i, 0) && !Hit(m, nums, p, num, i, 1)
    decreases MAX_FRAMES - j
  {
    if j == MAX_FRAMES then -1
    else if Hit(m, nums, p, num, j, 0) || Hit(m, nums, p, num, j, 1) then j
    else Find(m, nums, p, num, j + 1)
  }

  function Parity(m: Marks, nums: seq<Num>, p: nat, num: int, s: Slot): nat
    requires m.Valid() && |nums| == MAX_FRAMES
  {
    if Hit(m, nums, p, num, s, 1) then 1 else 0
  }

  // Long-term slots with an index in a range lose both fields, but for one slot.
  function DropIndices(m: Marks, lo: int, up: int, keep: int): (r: Marks)
    requires m.Valid()
    ensures r.Valid()
  {
    var gone := set j | j in m.LongOnly() && j != keep && lo <= m.indices[j] <= up;
    m.(long := [m.long[0] - gone, m.long[1] - gone])
  }

  /** 8.2.5.4 for fields: what one operation does, with p the parity of the current field and cur its slot. */
  function ApplyField(m: Marks, op: FieldOp, p: nat, cur: Slot, frameNum: int, nums: seq<Num>,
        view: set<Slot>): (r: Marks)
    requires m.Valid() && |nums| == MAX_FRAMES && p < 2
    ensures r.Valid()
  {
    match op
    case UnmarkShort(difference) =>
      var num := 2 * frameNum - difference;
      var s := Find(m, nums, p, num, 0);
      if s < 0 then m else
        var q := Parity(m, nums, p, num, s);
        m.(short := m.short[q := m.short[q] - {s}])
    case UnmarkLong(num) =>
      Unnumbered(m, num, p)
    case MakeLong(difference, index) =>
      var num := 2 * frameNum - difference;
      var s := Find(m, nums, p, num, 0);
      var n := DropIndices(m, index, index, s);
      if s < 0 then n else
        var q := Parity(m, nums, p, num, s);
        n.(short := n.short[q := n.short[q] - {s}], long := n.long[q := n.long[q] + {s}],
            indices := n.indices[s := index])
    case TruncateLong(index) =>
      DropIndices(m, index, INT_MAX, -1)
    case Reset =>
      Marks([{}, {}], [{}, {}], seq(MAX_FRAMES,
          j requires 0 <= j < MAX_FRAMES => if j in view then 0 else m.indices[j]))
    case CurrentLong(index) =>
      var n := DropIndices(m, index, index, cur);
      n.(indices := n.indices[cur := index])
  }

  // The short-term field of this slot and parity has a PicNum in terms of the current field (8-30, 8-31).
  ghost predicate Named(m: Marks, nums: seq<Num>, p: nat, num: int, j: Slot, k: nat)
    requires m.Valid() && |nums| == MAX_FRAMES && k < 2
  {
    j in m.short[k] && num - 2 * (nums[j] as int) == if k == p then 1 else 0
  }

  // It is the one an operation finds: no lower slot has such a field.
  ghost predicate FirstNamed(m: Marks, nums: seq<Num>, p: nat, num: int, j: Slot, k: nat)
    requires m.Valid() && |nums| == MAX_FRAMES && k < 2
  {
    Named(m, nums, p, num, j, k) && forall i: Slot, q: nat | i < j && q < 2 :: !Named(m, nums, p, num, i, q)
  }

  /** 8.2.5.4 field by field, with the field of parity k of slot j as any field. */
  lemma FieldMeans(m: Marks, op: FieldOp, p: nat, cur: Slot, frameNum: int, nums: seq<Num>, view: set<Slot>, j: Slot,
        k: nat)
    requires m.Valid() && |nums| == MAX_FRAMES && p < 2 && k < 2
    ensures var r := ApplyField(m, op, p, cur, frameNum, nums, view);
            var long := j in m.long[k];
            var short := j in m.short[0] || j in m.short[1];
            match op
            case UnmarkShort(difference) =>
              && (j in r.short[k] <==>
                  j in m.short[k] && !FirstNamed(m, nums, p, 2 * frameNum - difference, j, k))
              && (j in r.long[k] <==> long) && r.indices[j] == m.indices[j]
            case UnmarkLong(num) =>
              && (j in r.short[k] <==> j in m.short[k])
              && (j in r.long[k] <==>
                  long && (short || num - 2 * (m.indices[j] as int) != if k == p then 1 else 0))
              && r.indices[j] == m.indices[j]
            case MakeLong(difference, index) =>
              var named := FirstNamed(m, nums, p, 2 * frameNum - difference, j, k);
              && (j in r.short[k] <==> j in m.short[k] && !named)
              && (j in r.long[k] <==> named || (long && (short || m.indices[j] != index)))
              && (named ==> r.indices[j] == index)
            case TruncateLong(index) =>
              && (j in r.short[k] <==> j in m.short[k])
              && (j in r.long[k] <==> long && (short || m.indices[j] < index))
              && r.indices[j] == m.indices[j]
            case Reset =>
              && j !in r.short[k] && j !in r.long[k]
              && r.indices[j] == if j in view then 0 else m.indices[j]
            case CurrentLong(index) =>
              && (j in r.short[k] <==> j in m.short[k])
              && (j in r.long[k] <==> long && (short || j == cur || m.indices[j] != index))
              && r.indices[j] == if j == cur then index else m.indices[j]
  {
    if op.UnmarkShort? || op.MakeLong? {
      FoundNamed(m, nums, p, 2 * frameNum - op.difference, j, k);
      hide Find, Parity;
    }
  }

  // The slot found and its parity are those of the field named.
  lemma FoundNamed(m: Marks, nums: seq<Num>, p: nat, num: int, j: Slot, k: nat)
    requires m.Valid() && |nums| == MAX_FRAMES && p < 2 && k < 2
    ensures FirstNamed(m, nums, p, num, j, k) <==>
            Find(m, nums, p, num, 0) == j && Parity(m, nums, p, num, j) == k
  {
    FoundFirst(m, nums, p, num, 0);
    OneParity(nums[j], p, num);
    assert forall i: Slot, q: nat | q < 2 :: Named(m, nums, p, num, i, q) <==> Hit(m, nums, p, num, i, q);
    hide Hit, Named;
  }

  lemma {:induction false} FoundFirst(m: Marks, nums: seq<Num>, p: nat, num: int, j: nat)
    requires m.Valid() && |nums| == MAX_FRAMES && p < 2 && j <= MAX_FRAMES
    ensures var s := Find(m, nums, p, num, j);
            s >= 0 ==> j <= s && forall i: Slot, q: nat | j <= i < s && q < 2 :: !Named(m, nums, p, num, i, q)
    decreases MAX_FRAMES - j
  {
    if j < MAX_FRAMES {
      FoundFirst(m, nums, p, num, j + 1);
    }
  }

  /** In a second field, operation 1 with difference 0 takes the mark of the first field of its frame. */
  lemma FirstFieldNamed(m: Marks, p: nat, cur: Slot, nums: seq<Num>, view: set<Slot>)
    requires m.Valid() && |nums| == MAX_FRAMES && p < 2
    requires cur in m.short[1 - p]
    requires forall j | j in m.Shorts() && nums[j] == nums[cur] :: j == cur
    ensures ApplyField(m, FieldOp.UnmarkShort(0), p, cur, nums[cur], nums, view) ==
            m.(short := m.short[1 - p := m.short[1 - p] - {cur}])
  {
    var frameNum: int := nums[cur];
    assert FirstNamed(m, nums, p, 2 * frameNum, cur, 1 - p);
    FoundNamed(m, nums, p, 2 * frameNum, cur, 1 - p);
  }

  /** No operation makes a reference of another slot. */
  lemma ApplyFieldShrinks(m: Marks, op: FieldOp, p: nat, cur: Slot, frameNum: int, nums: seq<Num>, view: set<Slot>)
    requires m.Valid() && |nums| == MAX_FRAMES && p < 2
    ensures var r := ApplyField(m, op, p, cur, frameNum, nums, view); r.Shorts() + r.Longs() <= m.Shorts() + m.Longs()
  {
  }

  /** A list of operations, in order; operation 5 restarts the frame number of the current slot. */
  function ApplyFields(m: Marks, ops: seq<FieldOp>, p: nat, cur: Slot, frameNum: int, nums: seq<Num>,
        view: set<Slot>): (r: Marks)
    requires m.Valid() && |nums| == MAX_FRAMES && p < 2
    ensures r.Valid()
    decreases |ops|
  {
    if ops == [] then m
    else ApplyFields(ApplyField(m, ops[0], p, cur, frameNum, nums, view), ops[1..], p, cur, frameNum,
        NumsAfter(ops[0], cur, nums), view)
  }

  function NumsAfter(op: FieldOp, cur: Slot, nums: seq<Num>): (r: seq<Num>)
    requires |nums| == MAX_FRAMES
    ensures |r| == MAX_FRAMES
  {
    if op.Reset? then nums[cur := 0] else nums
  }

  lemma {:induction false} ApplyFieldsShrinks(m: Marks, ops: seq<FieldOp>, p: nat, cur: Slot, frameNum: int,
        nums: seq<Num>, view: set<Slot>)
    requires m.Valid() && |nums| == MAX_FRAMES && p < 2
    ensures var r := ApplyFields(m, ops, p, cur, frameNum, nums, view); r.Shorts() + r.Longs() <= m.Shorts() + m.Longs()
    decreases |ops|
  {
    hide ApplyField;
    if ops != [] {
      ApplyFieldShrinks(m, ops[0], p, cur, frameNum, nums, view);
      ApplyFieldsShrinks(ApplyField(m, ops[0], p, cur, frameNum, nums, view), ops[1..], p, cur, frameNum,
          NumsAfter(ops[0], cur, nums), view);
    }
  }

  /** 8.2.5.3: at capacity, both fields of the oldest short-term slot go, inferred ones from both marks. */
  ghost function FieldWindow(m: Marks, nums: seq<Num>, maxRefs: nat): (r: Marks)
    requires m.Valid() && |nums| == MAX_FRAMES
    ensures r.Valid()
  {
    if m.Shorts() == {} || Popcount(m.Shorts(), m.Longs()) < maxRefs then m else
      var next := OldestOf(m.Shorts(), nums);
      m.(short := [m.short[0] - {next}, m.short[1] - {next}],
         long := [m.long[0] - m.short[0] * {next}, m.long[1] - m.short[1] * {next}])
  }

  /** At capacity, one short-term slot of lowest number loses both fields; other marks stay. */
  lemma SlidingFields(m: Marks, nums: seq<Num>, maxRefs: nat)
    requires m.Valid() && |nums| == MAX_FRAMES
    ensures var r, shorts := FieldWindow(m, nums, maxRefs), m.short[0] + m.short[1];
            if shorts == {} || |shorts + m.long[0] + m.long[1]| < maxRefs then r == m
            else exists gone ::
              && gone in shorts && (forall k | k in shorts :: nums[gone] <= nums[k]) && r.indices == m.indices
              && r.short == [m.short[0] - {gone}, m.short[1] - {gone}]
              && r.long[0] == (if gone in m.short[0] then m.long[0] - {gone} else m.long[0])
              && r.long[1] == (if gone in m.short[1] then m.long[1] - {gone} else m.long[1])
  {
    hide Oldest;
    assert m.Shorts() + m.Longs() == m.short[0] + m.short[1] + m.long[0] + m.long[1];
    if m.Shorts() != {} && Popcount(m.Shorts(), m.Longs()) >= maxRefs {
      var gone := OldestOf(m.Shorts(), nums);
      OldestMeans(gone, m.Shorts(), nums);
      assert m.short[0] * {gone} == if gone in m.short[0] then {gone} else {};
      assert m.short[1] * {gone} == if gone in m.short[1] then {gone} else {};
      assert gone in m.short[0] + m.short[1];
    }
  }

  // The current field gets its mark.
  function WithField(m: Marks, p: nat, cur: Slot, long: bool): (r: Marks)
    requires m.Valid() && p < 2
    ensures r.Valid()
  {
    if long then m.(long := m.long[p := m.long[p] + {cur}]) else m.(short := m.short[p := m.short[p] + {cur}])
  }

  /** The marks after a field picture. A second field joins a first one that is a short-term reference. */
  ghost function FieldsMarked(m: Marks, adaptive: bool, ops: seq<FieldOp>, p: nat, cur: Slot, frameNum: int,
        nums: seq<Num>,
                        view: set<Slot>, maxRefs: nat): (r: Marks)
    requires m.Valid() && |nums| == MAX_FRAMES && p < 2
    ensures r.Valid()
  {
    if adaptive then
      WithField(ApplyFields(m, ops, p, cur, frameNum, nums, view), p, cur, exists op :: op in ops && op.CurrentLong?)
    else
      WithField(if cur in m.short[1 - p] then m else FieldWindow(m, nums, maxRefs), p, cur, false)
  }

  lemma FieldsMarkedAll(m: Marks, adaptive: bool, ops: seq<FieldOp>, p: nat, cur: Slot, frameNum: int, nums: seq<Num>,
                  view: set<Slot>, maxRefs: nat)
    requires m.Valid() && |nums| == MAX_FRAMES && p < 2
    ensures var r := FieldsMarked(m, adaptive, ops, p, cur, frameNum, nums, view, maxRefs);
            r.Shorts() + r.Longs() <= m.Shorts() + m.Longs() + {cur}
  {
    hide ApplyField, Oldest;
    ApplyFieldsShrinks(m, ops, p, cur, frameNum, nums, view);
  }

  // --- in place ---

  class FieldRefs {
    var short0: set<Slot>
    var short1: set<Slot>
    var long0: set<Slot>
    var long1: set<Slot>
    var shorts: set<Slot>
    var longs: set<Slot>
    var indices: seq<Num>
    var frameNums: seq<Num>

    ghost predicate Valid()
      reads this
    {
      |indices| == |frameNums| == MAX_FRAMES
    }

    // A slot is a reference exactly while one of its fields is.
    ghost predicate Consistent()
      reads this
    {
      Valid() && shorts == short0 + short1 && longs == long0 + long1
    }

    // What holds between pictures: each reference has a marked field.
    ghost predicate Covered()
      reads this
    {
      Valid() && shorts <= short0 + short1 && longs <= long0 + long1
    }

    ghost function View(): Marks
      reads this
    {
      Marks([short0, short1], [long0, long1], indices)
    }

    /** mark_frame_from_fields */
    method Settle(s: Slot)
      modifies this`shorts, this`longs
      ensures shorts == if s in short0 + short1 then old(shorts) + {s} else old(shorts) - {s}
      ensures longs == if s in long0 + long1 then old(longs) + {s} else old(longs) - {s}
    {
      shorts := if s in short0 || s in short1 then shorts + {s} else shorts - {s};
      longs := if s in long0 || s in long1 then longs + {s} else longs - {s};
    }

    /** Fields are marked only while their slots are. */
    method Restrict()
      requires Covered()
      modifies this`short0, this`short1, this`long0, this`long1
      ensures Consistent()
      ensures View() == Marks([old(short0) * shorts, old(short1) * shorts], [old(long0) * longs, old(long1) * longs],
          indices)
    {
      short0, short1 := short0 * shorts, short1 * shorts;
      long0, long1 := long0 * longs, long1 * longs;
    }

    // The short-term field with a picture number.
    method FindField(num: int, p: nat) returns (s: int, q: nat)
      requires Consistent() && p < 2
      ensures s == Find(View(), frameNums, p, num, 0) && q < 2
      ensures s >= 0 ==> q == Parity(View(), frameNums, p, num, s)
    {
      s, q := -1, 0;
      var j := 0;
      while j < MAX_FRAMES && s < 0
        invariant j <= MAX_FRAMES && -1 <= s < MAX_FRAMES && q < 2
        invariant s < 0 ==> Find(View(), frameNums, p, num, j) == Find(View(), frameNums, p, num, 0)
        invariant s >= 0 ==> s == Find(View(), frameNums, p, num, 0) && q == Parity(View(), frameNums, p, num, s)
        decreases MAX_FRAMES - j
      {
        if j in shorts {
          if j in short0 && FieldNum(frameNums[j], 0 == p) == num {
            s, q := j, 0;
          }
          if j in short1 && FieldNum(frameNums[j], 1 == p) == num {
            s, q := j, 1;
          }
        }
        j := j + 1;
      }
    }

    /** Long-term slots with an index from lo to up lose both fields, but for slot keep. */
    method Drop(lo: int, up: int, keep: int)
      requires Consistent()
      modifies this`long0, this`long1, this`shorts, this`longs
      ensures Consistent() && View() == DropIndices(old(View()), lo, up, keep)
    {
      ghost var gone := set j | j in View().LongOnly() && j != keep && lo <= indices[j] <= up;
      var r := longs - shorts;
      for j := 0 to MAX_FRAMES
        invariant Consistent() && shorts == old(shorts)
        invariant long0 == old(long0) - (set i | i in gone && i < j) && long1 == old(long1) - (set i | i in gone
            && i < j)
      {
        if j in r && j != keep && lo <= indices[j] <= up {
          long0, long1 := long0 - {j}, long1 - {j};
          Settle(j);
        }
      }
      assert gone == set i | i in gone && i < MAX_FRAMES;
    }

    // Long-term fields with this LongTermPicNum.
    method UnmarkNumber(num: int, p: nat)
      requires Consistent() && p < 2
      modifies this`long0, this`long1, this`shorts, this`longs
      ensures Consistent() && View() == Unnumbered(old(View()), num, p)
    {
      ghost var top, bottom := WithNumber(View(), num, 0 == p), WithNumber(View(), num, 1 == p);
      var r := longs - shorts;
      for j := 0 to MAX_FRAMES
        invariant Consistent() && shorts == old(shorts)
        invariant long0 == old(long0) - (set i | i in top && i < j) && long1 == old(long1) - (set i | i in bottom
            && i < j)
      {
        if j in r {
          if j in long0 && FieldNum(indices[j], 0 == p) == num {
            long0 := long0 - {j};
            Settle(j);
          }
          if j in long1 && FieldNum(indices[j], 1 == p) == num {
            long1 := long1 - {j};
            Settle(j);
          }
        }
      }
      assert top == set i | i in top && i < MAX_FRAMES;
      assert bottom == set i | i in bottom && i < MAX_FRAMES;
    }

    // The mark of a field of one parity goes, or turns long-term.
    method Unmark(s: Slot, q: nat, turnLong: bool)
      requires Consistent() && q < 2
      modifies this`short0, this`short1, this`long0, this`long1, this`shorts, this`longs
      ensures Consistent()
      ensures var m := old(View());
              View() == m.(short := m.short[q := m.short[q] - {s}],
                  long := if turnLong then m.long[q := m.long[q] + {s}] else m.long)
    {
      if q == 0 {
        short0 := short0 - {s};
        long0 := if turnLong then long0 + {s} else long0;
      } else {
        short1 := short1 - {s};
        long1 := if turnLong then long1 + {s} else long1;
      }
      Settle(s);
    }

    /** One memory management control operation. */
    method Operate(op: FieldOp, p: nat, cur: Slot, frameNum: int, view: set<Slot>)
      requires Consistent() && p < 2
      modifies this
      ensures Consistent() && View() == ApplyField(old(View()), op, p, cur, frameNum, old(frameNums), view)
      ensures frameNums == NumsAfter(op, cur, old(frameNums))
    {
      hide DropIndices, Find, Parity, Unnumbered;
      match op {
        case UnmarkShort(difference) =>
          var s, q := FindField(2 * frameNum - difference, p);
          if s >= 0 {
            Unmark(s, q, false);
          }
        case UnmarkLong(num) =>
          UnmarkNumber(num, p);
        case MakeLong(difference, index) =>
          var s, q := FindField(2 * frameNum - difference, p);
          Drop(index, index, s);
          if s >= 0 {
            indices := indices[s := index];
            Unmark(s, q, true);
          }
        case TruncateLong(index) =>
          Drop(index, INT_MAX, -1);
        case Reset =>
          short0, short1, long0, long1, shorts, longs := {}, {}, {}, {}, {}, {};
          frameNums := frameNums[cur := 0];
          var was := indices;
          indices := seq(MAX_FRAMES, j requires 0 <= j < MAX_FRAMES => if j in view then 0 else was[j]);
        case CurrentLong(index) =>
          Drop(index, index, cur);
          indices := indices[cur := index];
      }
    }

    /** The loop over the operations, of which the first 32 count. */
    method Adapt(ops: seq<FieldOp>, p: nat, cur: Slot, frameNum: int, view: set<Slot>) returns (long: bool)
      requires Consistent() && p < 2
      modifies this
      ensures Consistent()
      ensures View() == ApplyFields(old(View()), FirstOps(ops), p, cur, frameNum, old(frameNums), view)
      ensures long <==> exists op :: op in FirstOps(ops) && op.CurrentLong?
    {
      hide ApplyField;
      ghost var first := FirstOps(ops);
      long := false;
      var n := 0;
      while n < |ops| && n < 32
        invariant n <= |first| && Consistent()
        invariant ApplyFields(View(), first[n..], p, cur, frameNum, frameNums, view) ==
                  ApplyFields(old(View()), first, p, cur, frameNum, old(frameNums), view)
        invariant long <==> exists op :: op in first[..n] && op.CurrentLong?
      {
        assert first[n] == ops[n] && first[n..][1..] == first[n + 1..] && first[..n + 1] == first[..n] + [first[n]];
        long := long || ops[n].CurrentLong?;
        Operate(ops[n], p, cur, frameNum, view);
        n := n + 1;
      }
      assert first[..n] == first;
    }

    // The sliding window.
    method Slide(maxRefs: nat)
      requires Consistent()
      modifies this`short0, this`short1, this`long0, this`long1, this`shorts, this`longs
      ensures Consistent() && View() == FieldWindow(old(View()), frameNums, maxRefs)
    {
      hide Oldest, Popcount;
      if shorts != {} && Popcount(shorts, longs) >= maxRefs {
        var next := FindOldest(shorts, frameNums);
        ghost var m := View();
        assert m.Shorts() == shorts && m.Longs() == longs;
        OldestUnique(next, OldestOf(shorts, frameNums), shorts, frameNums);
        assert m.long[0] - m.short[0] * {next} == if next in long0 && next in short0 then long0 - {next} else long0;
        assert m.long[1] - m.short[1] * {next} == if next in long1 && next in short1 then long1 - {next} else long1;
        long0 := if next in long0 && next in short0 then long0 - {next} else long0;
        long1 := if next in long1 && next in short1 then long1 - {next} else long1;
        short0, short1 := short0 - {next}, short1 - {next};
        Settle(next);
      }
    }

    // The current field gets its mark, and its slot.
    method AddField(cur: Slot, p: nat, long: bool)
      requires Consistent() && p < 2
      modifies this`short0, this`short1, this`long0, this`long1, this`shorts, this`longs
      ensures Consistent() && View() == WithField(old(View()), p, cur, long)
      ensures cur in shorts + longs && (!long && cur in old(shorts) ==> shorts == old(shorts) && longs == old(longs))
    {
      if long {
        long0 := if p == 0 then long0 + {cur} else long0;
        long1 := if p == 1 then long1 + {cur} else long1;
      } else {
        short0 := if p == 0 then short0 + {cur} else short0;
        short1 := if p == 1 then short1 + {cur} else short1;
      }
      Settle(cur);
    }

    // One slot over the limit is no reference anymore, although its fields stay marked until the next picture.
    method DiscardOne(cur: Slot, maxRefs: nat)
      requires Consistent() && cur in shorts + longs && Popcount(shorts, longs) <= maxRefs + 1
      modifies this`shorts, this`longs
      ensures Covered() && Popcount(shorts, longs) <= maxRefs
      ensures Popcount(old(shorts), old(longs)) <= maxRefs ==> shorts == old(shorts) && longs == old(longs)
    {
      hide Oldest, Popcount;
      if Popcount(shorts, longs) > maxRefs {
        var unref := cur;
        if shorts == {} {
          unref := FindOldest(longs, indices);
        } else if shorts - {cur} != {} {
          unref := FindOldest(shorts - {cur}, frameNums);
        }
        OldestIn(unref, shorts, longs);
        PopcountDrop(shorts, longs, unref);
        shorts, longs := shorts - {unref}, longs - {unref};
      }
    }

    /**
     * parse_dec_ref_pic_marking_field: afterwards each reference has a marked field, and there are at most
     * max_num_ref_frames of them. A second field that joins a short-term first one pushes no reference out.
     */
    method Mark(adaptive: bool, ops: seq<FieldOp>, p: nat, cur: Slot, frameNum: int, view: set<Slot>, maxRefs: nat)
      requires Covered() && p < 2 && Popcount(shorts, longs) <= maxRefs
      modifies this
      ensures Covered() && Popcount(shorts, longs) <= maxRefs
      ensures View() == FieldsMarked(old(Restricted()), adaptive, FirstOps(ops), p, cur, frameNum, old(frameNums),
                                     view, maxRefs)
      ensures Popcount(View().Shorts(), View().Longs()) <= maxRefs ==> Consistent()
      ensures !adaptive && cur in old(Restricted()).short[1 - p] ==> shorts == old(shorts) && longs == old(longs)
    {
      hide ApplyFields, FieldWindow, Popcount, WithField, FirstOps;
      ghost var m := Restricted();
      ghost var nums := frameNums;
      Restrict();
      FieldsMarkedAll(m, adaptive, FirstOps(ops), p, cur, frameNum, nums, view, maxRefs);
      var long := false;
      if adaptive {
        long := Adapt(ops, p, cur, frameNum, view);
      } else if cur !in (if p == 0 then short1 else short0) {
        Slide(maxRefs);
      }
      AddField(cur, p, long);
      PopcountWith(m.Shorts(), m.Longs(), shorts, longs, cur);
      DiscardOne(cur, maxRefs);
    }

    // The marks of the fields whose slots are references.
    ghost function Restricted(): (m: Marks)
      requires Valid()
      reads this
      ensures m.Valid()
    {
      Marks([short0 * shorts, short1 * shorts], [long0 * longs, long1 * longs], indices)
    }
  }

  lemma PopcountWith(shorts: set<Slot>, longs: set<Slot>, s: set<Slot>, l: set<Slot>, cur: Slot)
    requires s + l <= shorts + longs + {cur}
    ensures Popcount(s, l) <= Popcount(shorts, longs) + 1
  {
    CardSubset(s + l, shorts + longs + {cur});
    if cur in shorts + longs {
      assert shorts + longs + {cur} == shorts + longs;
    }
  }

  lemma OldestIn(j: Slot, shorts: set<Slot>, longs: set<Slot>)
    requires j in shorts + longs
    ensures j in shorts || j in longs
  {
  }

  // The long-term slots whose field of one parity has this LongTermPicNum.
  function WithNumber(m: Marks, num: int, same: bool): set<Slot>
    requires m.Valid()
  {
    set j | j in m.LongOnly() && FieldNum(m.indices[j], same) == num
  }

  function Unnumbered(m: Marks, num: int, p: nat): (r: Marks)
    requires m.Valid()
    ensures r.Valid()
  {
    m.(long := [m.long[0] - WithNumber(m, num, 0 == p), m.long[1] - WithNumber(m, num, 1 == p)])
  }
}
