/**
 * Filling gaps in frame_num at once, against the one-by-one process of clauses 8.2.5.2 and 8.2.5.3 of
 * H.264, on the sets of frame numbers of the short-term references.
 */
module GapFilling {
  import opened Marking
  import opened Sets

  // --- the process of the standard ---

  ghost predicate IsMin(m: Num, s: set<Num>) {
    m in s && forall x | x in s :: m <= x
  }

  lemma {:induction false} MinExists(s: set<Num>)
    requires s != {}
    ensures exists m :: IsMin(m, s)
    decreases |s|
  {
    var k :| k in s;
    if s == {k} {
      assert IsMin(k, s);
    } else {
      MinExists(s - {k});
      var m :| IsMin(m, s - {k});
      forall x | x in s
        ensures x == k || m <= x
      {
        assert x == k || x in s - {k};
      }
      if m <= k {
        assert IsMin(m, s);
      } else {
        assert IsMin(k, s);
      }
    }
  }

  ghost function MinOf(s: set<Num>): (m: Num)
    requires s != {}
    ensures IsMin(m, s)
  {
    MinExists(s);
    var m :| IsMin(m, s);
    m
  }

  /** The sliding window (8.2.5.3) for one inferred frame of number n. */
  ghost function SlideOne(s: set<Num>, cap: nat, n: Num): set<Num> {
    (if s != {} && Card(s) >= cap then s - {MinOf(s)} else s) + {n}
  }

  /** One inferred frame after the other (8.2.5.2), for the numbers from lo to hi. */
  ghost function Slide(s: set<Num>, cap: nat, lo: int, hi: int): set<Num>
    requires hi <= INT_MAX
    decreases hi - lo
  {
    if lo >= hi then s else Slide(SlideOne(s, cap, lo), cap, lo + 1, hi)
  }

  // --- both processes keep the c greatest numbers ---

  ghost predicate Top(t: set<Num>, all: set<Num>, c: nat) {
    && t <= all
    && (Card(t) == c || (t == all && Card(t) <= c))
    && forall x, y | x in t && y in all - t :: y < x
  }

  function Range(lo: int, hi: int): (r: set<Num>)
    requires hi <= INT_MAX
    ensures forall x: Num :: x in r <==> lo <= x < hi
    decreases hi - lo
  {
    if lo >= hi then {} else Range(lo, hi - 1) + {hi - 1}
  }

  lemma TopUnique(t: set<Num>, u: set<Num>, all: set<Num>, c: nat)
    requires Top(t, all, c) && Top(u, all, c)
    ensures t == u
  {
    forall x | x in t
      ensures x in u
    {
      TopSame(t, u, all, c, x);
    }
    forall x | x in u
      ensures x in t
    {
      TopSame(u, t, all, c, x);
    }
  }

  lemma TopSame(t: set<Num>, u: set<Num>, all: set<Num>, c: nat, x: Num)
    requires Top(t, all, c) && Top(u, all, c) && x in t
    ensures x in u
  {
    hide Card;
    if x !in u {
      forall y | y in u
        ensures y in t
      {
        assert x in all - u;
        assert y !in t ==> y in all - t;
      }
      CardSubset(u, t);
    }
  }

  lemma SlideOneTop(t: set<Num>, all: set<Num>, cap: nat, n: Num)
    requires Top(t, all, cap) && cap >= 1 && forall y | y in all :: y < n
    ensures Top(SlideOne(t, cap, n), all + {n}, cap)
  {
    hide Card;
    CardEmpty<Num>({});
    var s := if t != {} && Card(t) >= cap then t - {MinOf(t)} else t;
    CardInsert(s, n);
    if t != {} && Card(t) >= cap {
      CardInsert(s, MinOf(t));
      assert s + {MinOf(t)} == t;
      assert Card(s + {n}) == cap;
      forall x, y | x in s + {n} && y in all + {n} - (s + {n})
        ensures y < x
      {
        assert x in t ==> MinOf(t) < x;
        assert y == MinOf(t) || y in all - t;
      }
    } else {
      assert t == all;
    }
  }

  lemma {:induction false} SlideTop(t: set<Num>, all: set<Num>, cap: nat, lo: int, hi: int)
    requires hi <= INT_MAX && Top(t, all, cap) && cap >= 1 && forall y | y in all :: y < lo
    ensures Top(Slide(t, cap, lo, hi), all + Range(lo, hi), cap)
    decreases hi - lo
  {
    hide Top, SlideOne, Card;
    if lo >= hi {
      assert all + Range(lo, hi) == all;
    } else {
      SlideOneTop(t, all, cap, lo);
      SlideTop(SlideOne(t, cap, lo), all + {lo}, cap, lo + 1, hi);
      assert all + {lo} + Range(lo + 1, hi) == all + Range(lo, hi);
    }
  }

  // --- the frame numbers of slots ---

  ghost function Numbers(s: set<Slot>, nums: seq<Num>): set<Num>
    requires |nums| == MAX_FRAMES
  {
    set j | j in s :: nums[j]
  }

  ghost predicate Injective(s: set<Slot>, nums: seq<Num>)
    requires |nums| == MAX_FRAMES
  {
    forall i, j | i in s && j in s && i != j :: nums[i] != nums[j]
  }

  lemma {:induction false} NumbersSize(s: set<Slot>, nums: seq<Num>)
    requires |nums| == MAX_FRAMES && Injective(s, nums)
    ensures Card(Numbers(s, nums)) == Card(s)
    decreases |s|
  {
    if s == {} {
      assert Numbers(s, nums) == {};
    } else {
      var j :| j in s;
      NumbersSize(s - {j}, nums);
      assert Numbers(s, nums) == Numbers(s - {j}, nums) + {nums[j]};
      CardInsert(Numbers(s - {j}, nums), nums[j]);
      CardDrop(s, j);
    }
  }

  lemma {:induction false} RangeSize(lo: int, hi: int)
    requires lo <= hi <= INT_MAX
    ensures Card(Range(lo, hi)) == hi - lo
    decreases hi - lo
  {
    if lo == hi {
      assert Range(lo, hi) == {};
    } else {
      RangeSize(lo, hi - 1);
      assert Range(lo, hi) == Range(lo, hi - 1) + {hi - 1};
      CardInsert(Range(lo, hi - 1), hi - 1);
    }
  }

  // The numbers after filling: those of the frames kept, and the last n missing ones.
  lemma FilledNumbers(was: set<Slot>, wasNums: seq<Num>, now: set<Slot>, nums: seq<Num>, frameNum: int, prevRef: int,
                      free: seq<Slot>, room: int, n: nat)
    requires |wasNums| == MAX_FRAMES == |nums| && frameNum <= INT_MAX
        && n == if frameNum - prevRef - 1 < room then frameNum - prevRef - 1 else room
    requires Filled(was, wasNums, now, nums, frameNum, prevRef, free, room)
    ensures Numbers(now, nums) == Numbers(now - Taken(free, n), wasNums) + Range(frameNum - n, frameNum)
  {
    var kept, t := now - Taken(free, n), Taken(free, n);
    forall x | x in Range(frameNum - n, frameNum)
      ensures x in Numbers(now, nums)
    {
      var i := x - (frameNum - n);
      assert nums[free[i]] == x && free[i] in t;
    }
    forall x | x in Numbers(now, nums)
      ensures x in Numbers(kept, wasNums) + Range(frameNum - n, frameNum)
    {
      var j :| j in now && nums[j] == x;
      if j in t {
        var i :| 0 <= i < n && free[i] == j;
        assert nums[free[i]] == frameNum - n + i;
      } else {
        assert j in kept && j in was;
      }
    }
    forall x | x in Numbers(kept, wasNums)
      ensures x in Numbers(now, nums)
    {
      var j :| j in kept && wasNums[j] == x;
      assert nums[j] == x;
    }
  }

  lemma FilledTop(was: set<Slot>, wasNums: seq<Num>, kept: set<Slot>, frameNum: int, prevRef: int, room: nat, n: nat)
    requires |wasNums| == MAX_FRAMES && frameNum <= INT_MAX && room >= 1 && frameNum - prevRef > 1
    requires n == if frameNum - prevRef - 1 < room then frameNum - prevRef - 1 else room
    requires NewestKept(was, kept, wasNums) && Card(kept) == if Card(was) < room - n then Card(was) else room - n
    requires Injective(was, wasNums) && forall j | j in was :: wasNums[j] <= prevRef
    ensures Top(Numbers(kept, wasNums) + Range(frameNum - n, frameNum), Numbers(was, wasNums) + Range(prevRef + 1,
        frameNum), room)
  {
    hide Card;
    var k, r := Numbers(kept, wasNums), Range(frameNum - n, frameNum);
    var all := Numbers(was, wasNums) + Range(prevRef + 1, frameNum);
    NumbersSize(kept, wasNums);
    RangeSize(frameNum - n, frameNum);
    CardJoin(k, r);
    assert k <= Numbers(was, wasNums);
    forall x, y | x in k + r && y in all - (k + r)
      ensures y < x
    {
      if y in Numbers(was, wasNums) {
        var d :| d in was && wasNums[d] == y;
        assert d !in kept;
        if x in k {
          var j :| j in kept && wasNums[j] == x;
          assert wasNums[d] <= wasNums[j] && d != j;
        }
      } else if x in k {
        // y is a missing number left out, so no earlier frame was kept
        assert n == room && Card(kept) == 0;
        CardEmpty(kept);
        assert false;
      }
    }
    if Card(was) < room - n {
      KeptAll(was, kept);
      assert k + r == all;
    } else {
      assert Card(k + r) == room;
    }
  }

  lemma KeptAll(was: set<Slot>, kept: set<Slot>)
    requires kept <= was && Card(kept) == Card(was)
    ensures kept == was
  {
    if kept < was {
      CardSubset(kept, was);
    }
  }

  /**
   * Filling a gap at once leaves the frame numbers that inferring its frames one by one would leave,
   * as long as the references precede the gap and have distinct numbers.
   */
  lemma FillingIsSliding(was: set<Slot>, wasNums: seq<Num>, now: set<Slot>, nums: seq<Num>, frameNum: int, prevRef: int,
                         free: seq<Slot>, room: nat)
    requires |wasNums| == MAX_FRAMES == |nums| && frameNum <= INT_MAX && room >= 1 && frameNum - prevRef > 1
        && Card(was) <= room
    requires Filled(was, wasNums, now, nums, frameNum, prevRef, free, room)
    requires Injective(was, wasNums) && forall j | j in was :: wasNums[j] <= prevRef
    ensures Numbers(now, nums) == Slide(Numbers(was, wasNums), room, prevRef + 1, frameNum)
  {
    hide Card, NewestKept;
    var n := if frameNum - prevRef - 1 < room then frameNum - prevRef - 1 else room;
    var s := Numbers(was, wasNums);
    FilledNumbers(was, wasNums, now, nums, frameNum, prevRef, free, room, n);
    FilledTop(was, wasNums, now - Taken(free, n), frameNum, prevRef, room, n);
    NumbersSize(was, wasNums);
    assert Top(s, s, room);
    SlideTop(s, s, room, prevRef + 1, frameNum);
    TopUnique(Numbers(now, nums), Slide(s, room, prevRef + 1, frameNum), s + Range(prevRef + 1, frameNum), room);
  }
}
