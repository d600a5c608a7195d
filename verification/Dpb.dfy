/**
 * The decoded picture buffer and output (clause C.4 of H.264): which slots wait for output, are queued,
 * are held by the caller, and in which order they come out, for the base view and dependent views.
 */
module Dpb {
  import opened Marking
  import opened OutputQueue
  import opened Sets

  /** What a slot holds: frame number, picture order count, identifier,
      and the base pictures around a dependent view. */
  datatype Picture = Picture(frameNum: int, poc: int, frameId: int, auBase0: int, auBase1: int)

  /** The state of the output, with a record of what was delivered. */
  datatype Buffer = Buffer(
    toGet: set<Slot>, output: set<Slot>, nonBase: set<Slot>, base: seq<Slot>, dependent: seq<Slot>,
    info: seq<Picture>, order: seq<int>, nextOrder: int,
    lastId: int, lastBase: int,
    held: set<Slot>, delivered: set<int>, shown: seq<int>, inOrder: bool)

  function Same(info: seq<Picture>, b: Slot, d: Slot): bool
    requires |info| == MAX_FRAMES
  {
    && info[b].frameNum == info[d].frameNum && info[b].poc == info[d].poc
    && (info[b].frameId + 1 == info[d].auBase0 || info[b].frameId + 1 == info[d].auBase1)
  }

  // --- the invariant ---

  // The queues hold the slots to get that are marked for output, without duplicates.
  ghost predicate Queued(b: Buffer) {
    && NoDuplicate(b.base) && Members(b.base) == b.toGet * b.output - b.nonBase
    && NoDuplicate(b.dependent) && Members(b.dependent) == b.toGet * b.output * b.nonBase
  }

  // Delivered frames stay marked for output until returned, and no picture to get was delivered before.
  ghost predicate Once(b: Buffer)
    requires |b.info| == MAX_FRAMES
  {
    && b.held <= b.output && b.held !! b.toGet
    && (forall s | s in b.toGet :: b.info[s].frameId !in b.delivered && b.info[s].frameId <= b.lastId)
    && (forall s, t | s in b.toGet && t in b.toGet && s != t :: b.info[s].frameId != b.info[t].frameId)
    && forall id | id in b.delivered :: id <= b.lastId
  }

  predicate Increasing(s: seq<int>) {
    forall i, j | 0 <= i < j < |s| :: s[i] < s[j]
  }

  // Queued base pictures have different ranks already given out. While the output is in order, the base
  // pictures were shown by increasing rank and the queued ones rank above them.
  ghost predicate Ranked(b: Buffer)
    requires |b.order| == MAX_FRAMES
  {
    && (forall s | s in b.base :: b.order[s] < b.nextOrder)
    && (forall s, t | s in b.base && t in b.base && s != t :: b.order[s] != b.order[t])
    && (forall o | o in b.shown :: o < b.nextOrder)
    && (b.inOrder ==> Increasing(b.shown) && forall s, o | s in b.base && o in b.shown :: o < b.order[s])
  }

  ghost predicate Inv(b: Buffer) {
    |b.info| == |b.order| == MAX_FRAMES && Queued(b) && Once(b) && Ranked(b)
  }

  // --- transitions ---

  /** A waiting picture enters the queue of its view, with the next rank if it is bumped. */
  function Enqueue(b: Buffer, pic: Slot, ranked: bool): Buffer
    requires |b.order| == MAX_FRAMES
  {
    b.(output := b.output + {pic},
       order := if ranked then b.order[pic := b.nextOrder] else b.order,
       nextOrder := if ranked then b.nextOrder + 1 else b.nextOrder,
       base := if pic in b.nonBase then b.base else [pic] + b.base,
       dependent := if pic in b.nonBase then [pic] + b.dependent else b.dependent)
  }

  lemma EnqueueInv(b: Buffer, pic: Slot, ranked: bool)
    requires Inv(b) && pic in b.toGet - b.output && (ranked || pic in b.nonBase)
    ensures Inv(Enqueue(b, pic, ranked)) && |b.base| <= QUEUE_SIZE && |b.dependent| <= QUEUE_SIZE
    ensures if pic in b.nonBase then |b.dependent| < QUEUE_SIZE else |b.base| < QUEUE_SIZE
  {
    hide Members, NoDuplicate, Card;
    EnqueueQueued(b, pic, ranked);
    EnqueueRanked(b, pic, ranked);
    Bounded(b.base);
    Bounded(b.dependent);
    MembersIn(b.base, pic);
    MembersIn(b.dependent, pic);
    if pic in b.nonBase {
      RoomFor(b.dependent, pic);
    } else {
      RoomFor(b.base, pic);
    }
  }

  /** The rank is higher than any given before, and the picture is the first of its queue. */
  lemma EnqueueMeans(b: Buffer, pic: Slot, ranked: bool)
    requires Inv(b) && pic in b.toGet - b.output
    ensures var r := Enqueue(b, pic, ranked);
            && (ranked ==> forall o | o in b.shown :: o < r.order[pic])
            && (ranked ==> forall s | s in b.base :: b.order[s] < r.order[pic])
            && (forall s: Slot | s != pic :: r.order[s] == b.order[s]) && r.output == b.output + {pic}
            && r.base == (if pic in b.nonBase then b.base else [pic] + b.base)
            && r.dependent == (if pic in b.nonBase then [pic] + b.dependent else b.dependent)
            && r.toGet == b.toGet && r.held == b.held && r.info == b.info && r.delivered == b.delivered
  {
    hide Members, NoDuplicate;
  }

  lemma MembersIn(q: seq<Slot>, pic: Slot)
    ensures pic in Members(q) <==> pic in q
  {
  }

  lemma EnqueueQueued(b: Buffer, pic: Slot, ranked: bool)
    requires |b.order| == MAX_FRAMES && Queued(b) && pic in b.toGet - b.output
    ensures Queued(Enqueue(b, pic, ranked))
  {
    hide Members, NoDuplicate;
    MembersIn(b.base, pic);
    MembersIn(b.dependent, pic);
    if pic in b.nonBase {
      PushedMembers(b.dependent, pic);
    } else {
      PushedMembers(b.base, pic);
    }
  }

  lemma EnqueueRanked(b: Buffer, pic: Slot, ranked: bool)
    requires |b.order| == MAX_FRAMES && Queued(b) && Ranked(b) && pic in b.toGet - b.output
        && (ranked || pic in b.nonBase)
    ensures Ranked(Enqueue(b, pic, ranked))
  {
    hide Members, NoDuplicate;
    MembersIn(b.base, pic);
  }

  /** Entry i of the base queue goes to the caller, and stays marked for output if it is borrowed. */
  function DeliverBase(b: Buffer, i: nat, borrow: bool): Buffer
    requires i < |b.base| && |b.info| == |b.order| == MAX_FRAMES
  {
    var pic := b.base[i];
    b.(base := Without(b.base, i), toGet := b.toGet - {pic},
       output := if borrow then b.output else b.output - {pic},
       held := if borrow then b.held + {pic} else b.held,
       delivered := b.delivered + {b.info[pic].frameId},
       shown := b.shown + [b.order[pic]],
       inOrder := b.inOrder && IsFirst(b, i))
  }

  // No queued base picture ranks before entry i.
  predicate IsFirst(b: Buffer, i: nat)
    requires i < |b.base| && |b.order| == MAX_FRAMES
  {
    forall k | 0 <= k < |b.base| :: b.order[b.base[i]] <= b.order[b.base[k]]
  }

  lemma SameFirst(b: Buffer, c: Buffer, i: nat)
    requires i < |b.base| && |b.order| == MAX_FRAMES && c.base == b.base && c.order == b.order
    ensures IsFirst(b, i) == IsFirst(c, i)
  {
  }

  function DeliverDependent(b: Buffer, i: nat, borrow: bool): Buffer
    requires i < |b.dependent| && |b.info| == MAX_FRAMES
  {
    var pic := b.dependent[i];
    b.(dependent := Without(b.dependent, i), toGet := b.toGet - {pic},
       output := if borrow then b.output else b.output - {pic},
       held := if borrow then b.held + {pic} else b.held,
       delivered := b.delivered + {b.info[pic].frameId})
  }

  lemma Extended(s: seq<int>, x: int)
    requires Increasing(s) && forall o | o in s :: o < x
    ensures Increasing(s + [x])
  {
    forall i | 0 <= i < |s|
      ensures s[i] < x
    {
      assert s[i] in s;
    }
  }

  lemma DeliverBaseInv(b: Buffer, i: nat, borrow: bool)
    requires Inv(b) && i < |b.base|
    ensures Inv(DeliverBase(b, i, borrow))
    ensures b.base[i] in b.toGet * b.output && b.base[i] !in b.held && b.info[b.base[i]].frameId !in b.delivered
  {
    hide Members, NoDuplicate, Increasing;
    MembersIn(b.base, b.base[i]);
    WithoutMembers(b.base, i);
    var r := DeliverBase(b, i, borrow);
    assert Queued(r);
    if r.inOrder {
      Extended(b.shown, b.order[b.base[i]]);
    }
    forall s | s in r.base
      ensures s in b.base && s != b.base[i] && (r.inOrder ==> r.order[b.base[i]] < r.order[s])
    {
      MembersIn(r.base, s);
      MembersIn(b.base, s);
    }
  }

  lemma DeliverDependentInv(b: Buffer, i: nat, borrow: bool)
    requires Inv(b) && i < |b.dependent|
    ensures Inv(DeliverDependent(b, i, borrow))
    ensures b.dependent[i] in b.toGet * b.output && b.dependent[i] !in b.held
    ensures b.info[b.dependent[i]].frameId !in b.delivered
  {
    hide Members, NoDuplicate;
    MembersIn(b.dependent, b.dependent[i]);
    WithoutMembers(b.dependent, i);
  }

  /** An orphaned dependent view leaves without being delivered. */
  function DropQueued(b: Buffer, i: nat): Buffer
    requires i < |b.dependent|
  {
    var pic := b.dependent[i];
    b.(dependent := Without(b.dependent, i), toGet := b.toGet - {pic}, output := b.output - {pic})
  }

  lemma DropQueuedInv(b: Buffer, i: nat)
    requires Inv(b) && i < |b.dependent|
    ensures Inv(DropQueued(b, i))
  {
    hide Members, NoDuplicate;
    MembersIn(b.dependent, b.dependent[i]);
    WithoutMembers(b.dependent, i);
  }

  function DropWaiting(b: Buffer, pic: Slot): Buffer {
    b.(toGet := b.toGet - {pic})
  }

  lemma DropWaitingInv(b: Buffer, pic: Slot)
    requires Inv(b) && pic !in b.output
    ensures Inv(DropWaiting(b, pic))
  {
    hide Members, NoDuplicate;
    assert DropWaiting(b, pic).toGet * b.output == b.toGet * b.output;
  }

  /** The caller gives frames back. */
  function Return(b: Buffer, frames: set<Slot>): Buffer {
    b.(output := b.output - frames, held := b.held - frames)
  }

  lemma ReturnInv(b: Buffer, frames: set<Slot>)
    requires Inv(b) && frames <= b.held
    ensures Inv(Return(b, frames))
  {
    hide Members, NoDuplicate;
    assert b.toGet * (b.output - frames) == b.toGet * b.output;
  }

  /**
   * A new picture takes a slot. A dependent view keeps the identifier of the base view parsed before it, and
   * a base view tells its own to the dependent views that wait for the one parsed after them.
   */
  function Allocate(b: Buffer, slot: Slot, frameNum: int, poc: int, nonBaseView: bool): (r: Buffer)
    requires |b.info| == MAX_FRAMES
    ensures |r.info| == MAX_FRAMES
  {
    var id := b.lastId + 1;
    var was := b.info[slot];
    var nonBase := if nonBaseView then b.nonBase + {slot} else b.nonBase - {slot};
    if nonBaseView then
      b.(lastId := id, nonBase := nonBase, info := b.info[slot := Picture(frameNum, poc, id, b.lastBase, 0)])
    else
      b.(lastId := id, nonBase := nonBase, lastBase := id + 1,
         info := Told(b.info, nonBase, id + 1)[slot := Picture(frameNum, poc, id, was.auBase0, was.auBase1)])
  }

  function Told(info: seq<Picture>, nonBase: set<Slot>, base: int): (r: seq<Picture>)
    requires |info| == MAX_FRAMES
    ensures |r| == MAX_FRAMES
  {
    seq(MAX_FRAMES, i requires 0 <= i < MAX_FRAMES =>
      if i in nonBase && info[i].auBase1 == 0 then info[i].(auBase1 := base) else info[i])
  }

  // All other identifiers stay.
  lemma AllocateIds(b: Buffer, slot: Slot, frameNum: int, poc: int, nonBaseView: bool)
    requires |b.info| == MAX_FRAMES
    ensures var r := Allocate(b, slot, frameNum, poc, nonBaseView);
            r.info[slot].frameId == b.lastId + 1 && forall s: Slot | s != slot :: r.info[s].frameId == b.info[s].frameId
  {
  }

  lemma AllocateMeans(b: Buffer, slot: Slot, frameNum: int, poc: int, nonBaseView: bool)
    requires |b.info| == MAX_FRAMES
    ensures var r := Allocate(b, slot, frameNum, poc, nonBaseView);
            && r.lastId == b.lastId + 1 && r.info[slot].frameId == r.lastId
            && r.info[slot].frameNum == frameNum && r.info[slot].poc == poc
            && (slot in r.nonBase <==> nonBaseView) && r.nonBase - {slot} == b.nonBase - {slot}
  {
  }

  lemma AllocateInv(b: Buffer, slot: Slot, frameNum: int, poc: int, nonBaseView: bool)
    requires Inv(b) && slot !in b.toGet
    ensures Inv(Allocate(b, slot, frameNum, poc, nonBaseView))
  {
    hide Members, NoDuplicate, Told;
    AllocateIds(b, slot, frameNum, poc, nonBaseView);
    var r := Allocate(b, slot, frameNum, poc, nonBaseView);
    assert r.toGet * r.output - r.nonBase == b.toGet * b.output - b.nonBase;
    assert r.toGet * r.output * r.nonBase == b.toGet * b.output * b.nonBase;
  }

  // --- which pictures are of one access unit ---

  /** A picture that took a slot, in decoding order. */
  datatype Arrival = Arrival(slot: Slot, id: int, frameNum: int, poc: int, dependent: bool)

  // It still has its slot.
  predicate Present(h: seq<Arrival>, k: nat)
    requires k < |h|
  {
    forall i | k < i < |h| :: h[i].slot != h[k].slot
  }

  // Only dependent views arrived between pictures i and j.
  predicate NoBaseBetween(h: seq<Arrival>, i: int, j: int)
  {
    forall k | 0 <= k < |h| && i < k < j :: h[k].dependent
  }

  // The slots of a buffer hold the pictures that arrived last, and each dependent view has the identifiers of the
  // base views right before and right after it.
  ghost predicate Recorded(b: Buffer, h: seq<Arrival>)
    requires |b.info| == MAX_FRAMES
  {
    && (forall i, j | 0 <= i < j < |h| :: h[i].id < h[j].id)
    && (forall i | 0 <= i < |h| :: 0 <= h[i].id <= b.lastId) && -1 <= b.lastId
    && (forall i | 0 <= i < |h| && !h[i].dependent :: b.lastBase == h[i].id + 1 <==> NoBaseBetween(h, i, |h|))
    && 0 <= b.lastBase <= b.lastId + 1
    && forall k | 0 <= k < |h| && Present(h, k) :: Holds(b, h, k)
  }

  ghost predicate Holds(b: Buffer, h: seq<Arrival>, k: nat)
    requires |b.info| == MAX_FRAMES && k < |h|
  {
    var pic := b.info[h[k].slot];
    && pic.frameNum == h[k].frameNum && pic.poc == h[k].poc && pic.frameId == h[k].id
    && (h[k].slot in b.nonBase <==> h[k].dependent)
    && (h[k].dependent ==>
      && 0 <= pic.auBase0 <= h[k].id && (pic.auBase1 == 0 || h[k].id + 1 < pic.auBase1 <= b.lastId + 1)
      && (pic.auBase1 == 0 <==> NoBaseBetween(h, k, |h|))
      && (forall i | 0 <= i < k && !h[i].dependent :: pic.auBase0 == h[i].id + 1 <==> NoBaseBetween(h, i, k))
      && (forall i | k < i < |h| && !h[i].dependent :: pic.auBase1 == h[i].id + 1 <==> NoBaseBetween(h, k, i)))
  }

  /** The record holds over every run: it starts empty, and a new picture adds to it. */
  lemma AllocateRecorded(b: Buffer, h: seq<Arrival>, slot: Slot, frameNum: int, poc: int, nonBaseView: bool)
    requires |b.info| == MAX_FRAMES && Recorded(b, h)
    ensures Recorded(Start(), [])
    ensures Recorded(Allocate(b, slot, frameNum, poc, nonBaseView),
                h + [Arrival(slot, b.lastId + 1, frameNum, poc, nonBaseView)])
  {
    hide Holds, NoBaseBetween;
    var n := |h|;
    var r := Allocate(b, slot, frameNum, poc, nonBaseView);
    var g := h + [Arrival(slot, b.lastId + 1, frameNum, poc, nonBaseView)];
    forall k | 0 <= k < |g| && Present(g, k)
      ensures Holds(r, g, k)
    {
      if k < n {
        assert g[n].slot != g[k].slot;
        assert forall i | 0 <= i < n :: g[i] == h[i];
        KeptHolds(b, h, slot, frameNum, poc, nonBaseView, k);
      } else {
        NewHolds(b, h, slot, frameNum, poc, nonBaseView);
      }
    }
    forall i | 0 <= i < |g| && !g[i].dependent
      ensures r.lastBase == g[i].id + 1 <==> NoBaseBetween(g, i, |g|)
    {
      LongerBetween(h, g[n], i, |g|);
    }
  }

  // Another picture at the end.
  lemma LongerBetween(h: seq<Arrival>, a: Arrival, i: int, j: int)
    ensures NoBaseBetween(h + [a], i, j) <==> NoBaseBetween(h, i, j) && (i < |h| < j ==> a.dependent)
    ensures j >= |h| ==> (NoBaseBetween(h, i, j) <==> NoBaseBetween(h, i, |h|))
    ensures NoBaseBetween(h, |h|, j)
  {
    assert forall k | 0 <= k < |h| :: (h + [a])[k] == h[k];
    assert (h + [a])[|h|] == a;
  }

  lemma KeptHolds(b: Buffer, h: seq<Arrival>, slot: Slot, frameNum: int, poc: int, nonBaseView: bool, k: nat)
    requires |b.info| == MAX_FRAMES && Recorded(b, h) && k < |h| && Present(h, k) && h[k].slot != slot
    ensures Holds(Allocate(b, slot, frameNum, poc, nonBaseView),
                h + [Arrival(slot, b.lastId + 1, frameNum, poc, nonBaseView)], k)
  {
    hide NoBaseBetween, Present;
    var a := Arrival(slot, b.lastId + 1, frameNum, poc, nonBaseView);
    assert Holds(b, h, k);
    assert forall i | 0 <= i < |h| :: (h + [a])[i] == h[i];
    assert (h + [a])[|h|] == a;
    LongerBetween(h, a, k, |h| + 1);
    forall i | 0 <= i <= |h|
      ensures NoBaseBetween(h + [a], i, k) <==> NoBaseBetween(h, i, k)
      ensures NoBaseBetween(h + [a], k, i) <==> NoBaseBetween(h, k, i)
    {
      LongerBetween(h, a, i, k);
      LongerBetween(h, a, k, i);
    }
  }

  lemma NewHolds(b: Buffer, h: seq<Arrival>, slot: Slot, frameNum: int, poc: int, nonBaseView: bool)
    requires |b.info| == MAX_FRAMES && Recorded(b, h)
    ensures Holds(Allocate(b, slot, frameNum, poc, nonBaseView),
                h + [Arrival(slot, b.lastId + 1, frameNum, poc, nonBaseView)], |h|)
  {
    hide NoBaseBetween, Present;
    var a := Arrival(slot, b.lastId + 1, frameNum, poc, nonBaseView);
    LongerBetween(h, a, |h|, |h| + 1);
    forall i | 0 <= i < |h|
      ensures NoBaseBetween(h + [a], i, |h|) <==> NoBaseBetween(h, i, |h|)
    {
      LongerBetween(h, a, i, |h|);
    }
  }

  /**
   * A base view and a dependent view that have their slots are paired exactly if they have the same frame number
   * and order count and no other base view arrived between them, whichever of them came first.
   */
  lemma PairedExactly(b: Buffer, h: seq<Arrival>, i: nat, j: nat)
    requires |b.info| == MAX_FRAMES && Recorded(b, h) && i < |h| && j < |h| && Present(h, i) && Present(h, j)
    requires !h[i].dependent && h[j].dependent
    ensures Same(b.info, h[i].slot, h[j].slot) <==>
            && h[i].frameNum == h[j].frameNum && h[i].poc == h[j].poc
            && forall k | i < k < j || j < k < i :: h[k].dependent
  {
    hide Present, NoBaseBetween;
    assert Holds(b, h, i) && Holds(b, h, j);
    hide Holds, Recorded;
    HoldsPair(b, h, i, j);
    if i < j {
      BetweenMeans(h, i, j);
    } else {
      BetweenMeans(h, j, i);
    }
  }

  lemma BetweenMeans(h: seq<Arrival>, i: nat, j: nat)
    requires i < j < |h|
    ensures NoBaseBetween(h, i, j) <==> forall k | i < k < j || j < k < i :: h[k].dependent
  {
  }

  lemma HoldsPair(b: Buffer, h: seq<Arrival>, i: nat, j: nat)
    requires |b.info| == MAX_FRAMES && i < |h| && j < |h| && Holds(b, h, i) && Holds(b, h, j)
    requires !h[i].dependent && h[j].dependent && (i < j ==> h[i].id < h[j].id) && (j < i ==> h[j].id < h[i].id)
    requires 0 <= h[i].id
    ensures Same(b.info, h[i].slot, h[j].slot) <==>
            && h[i].frameNum == h[j].frameNum && h[i].poc == h[j].poc
            && if i < j then NoBaseBetween(h, i, j) else NoBaseBetween(h, j, i)
  {
    hide NoBaseBetween;
  }

  /** The current picture starts to wait for output. */
  function Insert(b: Buffer, pic: Slot): Buffer {
    b.(toGet := b.toGet + {pic})
  }

  /**
   * Adding the current picture keeps the invariant exactly if it is not marked for output and was not
   * delivered before. The code tests only that it does not wait already, so a slice that comes after its
   * picture was delivered adds the picture again.
   */
  lemma InsertInv(b: Buffer, pic: Slot)
    requires Inv(b) && pic !in b.toGet && b.info[pic].frameId <= b.lastId
    requires forall s | s in b.toGet :: b.info[s].frameId != b.info[pic].frameId
    ensures Inv(Insert(b, pic)) <==> pic !in b.output && b.info[pic].frameId !in b.delivered
  {
    hide NoDuplicate;
    var r := Insert(b, pic);
    if pic !in b.output {
      assert r.toGet * r.output == b.toGet * b.output;
    } else {
      assert pic in r.toGet * r.output && pic !in b.toGet * b.output;
      assert pic !in Members(b.base) && pic !in Members(b.dependent);
    }
  }

  /**
   * What the decoder knows of the current picture when it does not wait: if it is complete it was delivered
   * before, otherwise nobody has seen it.
   */
  ghost predicate Tracked(b: Buffer, complete: set<Slot>, current: int)
    requires |b.info| == MAX_FRAMES
  {
    && -1 <= current < MAX_FRAMES
    && (current >= 0 && current !in b.toGet ==>
      if current in complete then b.info[current].frameId in b.delivered else Unseen(b, current))
  }

  // A picture that neither waits nor is held nor was delivered.
  ghost predicate Unseen(b: Buffer, pic: Slot)
    requires |b.info| == MAX_FRAMES
  {
    && pic !in b.toGet + b.output && b.info[pic].frameId <= b.lastId && b.info[pic].frameId !in b.delivered
    && forall s | s in b.toGet :: b.info[s].frameId != b.info[pic].frameId
  }

  /**
   * Adding the current picture because it does not wait adds it a second time exactly if it is complete. Then
   * and only then the invariant breaks.
   */
  lemma AddedTwice(b: Buffer, complete: set<Slot>, current: Slot)
    requires Inv(b) && Tracked(b, complete, current) && current !in b.toGet
    ensures b.info[current].frameId in b.delivered <==> current in complete
    ensures Inv(Insert(b, current)) <==> current !in complete
  {
    hide Queued, Ranked, NoDuplicate, Members;
    if current in complete {
      assert current in Insert(b, current).toGet;
    } else {
      InsertInv(b, current);
    }
  }

  lemma AllocateTracked(b: Buffer, slot: Slot, frameNum: int, poc: int, nonBaseView: bool, complete: set<Slot>)
    requires Inv(b) && slot !in b.toGet + b.output + complete
    ensures Unseen(Allocate(b, slot, frameNum, poc, nonBaseView), slot)
    ensures Tracked(Allocate(b, slot, frameNum, poc, nonBaseView), complete, slot)
  {
    hide Queued, Ranked, Told;
    AllocateIds(b, slot, frameNum, poc, nonBaseView);
  }

  // Macroblocks of the current picture are decoded by its slices, so after it was added.
  lemma CompletedTracked(b: Buffer, complete: set<Slot>, current: int, pics: set<Slot>)
    requires |b.info| == MAX_FRAMES && Tracked(b, complete, current) && (current in pics ==> current in b.toGet)
    ensures Tracked(b, complete + pics, current)
  {
  }

  lemma GrownTracked(b: Buffer, c: Buffer, complete: set<Slot>, current: int)
    requires |b.info| == MAX_FRAMES && Grown(b, c) && Tracked(b, complete, current)
    ensures Tracked(c, complete, current)
  {
  }

  lemma ReturnTracked(b: Buffer, frames: set<Slot>, complete: set<Slot>, current: int)
    requires |b.info| == MAX_FRAMES && Tracked(b, complete, current)
    ensures Tracked(Return(b, frames), complete, current)
  {
  }

  // The current picture is not dropped from the ones to get.
  lemma DroppedTracked(b: Buffer, c: Buffer, complete: set<Slot>, current: int)
    requires |b.info| == MAX_FRAMES && c.info == b.info && c.delivered == b.delivered && c.lastId == b.lastId
    requires Tracked(b, complete, current) && c.toGet <= b.toGet && (current in b.toGet ==> current in c.toGet)
    requires forall s | s in c.output && s !in b.output :: s in b.toGet
    ensures Tracked(c, complete, current)
  {
  }

  // It is not handed out before it is complete.
  lemma HandedOutTracked(b: Buffer, c: Buffer, pic0: Slot, pic1: int, borrow: bool, complete: set<Slot>, current: int)
    requires |b.info| == |b.order| == MAX_FRAMES && -1 <= pic1 < MAX_FRAMES && HandedOut(b, c, pic0, pic1, borrow)
    requires pic0 in complete || pic0 != current
    requires pic1 >= 0 ==> pic1 in complete
    requires Tracked(b, complete, current)
    ensures Tracked(c, complete, current)
  {
    hide Same;
    var out: set<Slot> := if pic1 < 0 then {pic0} else {pic0, pic1};
    if current >= 0 && current !in c.toGet {
      if current in b.toGet {
        assert current in out;
      } else {
        assert current !in out && (current !in b.output ==> current !in c.output);
        if current !in complete {
          forall s | s in out
            ensures b.info[s].frameId != b.info[current].frameId
          {
          }
        }
      }
    }
  }

  // The buffer before the first picture.
  function Start(): Buffer {
    Buffer({}, {}, {}, [], [], seq(MAX_FRAMES, i => Picture(0, 0, 0, 0, 0)), seq(MAX_FRAMES, i => 0), 0, -1, 0,
           {}, {}, [], true)
  }

  // The current picture is added, queued and handed out.
  function Through(b: Buffer, pic: Slot): Buffer
    requires |b.info| == |b.order| == MAX_FRAMES && pic !in b.nonBase
  {
    DeliverBase(Enqueue(Insert(b, pic), pic, true), 0, false)
  }

  lemma ThroughMeans(b: Buffer, pic: Slot)
    requires |b.info| == |b.order| == MAX_FRAMES && pic !in b.nonBase && b.base == []
    ensures Enqueue(Insert(b, pic), pic, true).base == [pic]
    ensures var c := Through(b, pic);
            && c.base == [] && c.nonBase == b.nonBase && c.info == b.info && |c.order| == MAX_FRAMES
            && c.toGet == b.toGet - {pic} && c.delivered == b.delivered + {b.info[pic].frameId}
            && c.nextOrder == b.nextOrder + 1 && c.shown == b.shown + [b.nextOrder]
  {
  }

  lemma ThroughInv(b: Buffer, pic: Slot)
    requires Inv(b) && pic !in b.nonBase && Unseen(b, pic)
    ensures Inv(Through(b, pic))
  {
    hide Inv;
    InfoShape(b);
    InsertedInv(b, pic);
    EnqueueInv(Insert(b, pic), pic, true);
    DeliverBaseInv(Enqueue(Insert(b, pic), pic, true), 0, false);
  }

  lemma InsertedInv(b: Buffer, pic: Slot)
    requires Inv(b) && Unseen(b, pic)
    ensures Inv(Insert(b, pic)) && pic in Insert(b, pic).toGet - Insert(b, pic).output
  {
    hide Queued, Ranked;
    InsertInv(b, pic);
  }

  /** A run that hands out one picture twice: a slice comes after its picture was delivered. */
  lemma DeliveredTwice()
    ensures var b := Through(Allocate(Start(), 0, 0, 0, false), 0);
            && Inv(b) && 0 !in b.toGet && b.info[0].frameId == 0 && 0 in b.delivered
            && Enqueue(Insert(b, 0), 0, true).base == [0] && Through(b, 0).shown == [0, 1]
  {
    hide Inv, Told, Unseen, Through;
    var a := Allocate(Start(), 0, 0, 0, false);
    StartInv();
    AllocateIds(Start(), 0, 0, 0, false);
    AllocateInv(Start(), 0, 0, 0, false);
    AllocateTracked(Start(), 0, 0, 0, false, {});
    ThroughInv(a, 0);
    ThroughMeans(a, 0);
    ThroughMeans(Through(a, 0), 0);
  }

  lemma StartInv()
    ensures Inv(Start())
  {
  }

  // --- bumping ---

  // One of these base views belongs to the access unit of a dependent view.
  ghost predicate HasBase(info: seq<Picture>, bases: set<Slot>, d: Slot)
    requires |info| == MAX_FRAMES
  {
    exists q | q in bases :: Same(info, q, d)
  }

  // The waiting pictures of a view that may be bumped: dependent views follow their base view.
  ghost predicate Bumpable(b: Buffer, s: Slot, nonBaseView: bool, ignored: set<Slot>)
    requires |b.info| == MAX_FRAMES
  {
    && s in b.toGet - b.output - ignored && (s in b.nonBase <==> nonBaseView)
    && (nonBaseView ==> HasBase(b.info, b.output - b.nonBase, s))
  }

  // In display order: the lower picture order count, the earlier picture of equal ones.
  predicate Before(info: seq<Picture>, s: Slot, t: Slot)
    requires |info| == MAX_FRAMES
  {
    info[s].poc < info[t].poc || (info[s].poc == info[t].poc && info[s].frameId < info[t].frameId)
  }

  // Only enqueueing was done, and ranks once given stay.
  ghost predicate Grown(b: Buffer, c: Buffer) {
    && c == b.(output := c.output, base := c.base, dependent := c.dependent, order := c.order, nextOrder := c.nextOrder)
    && |b.order| == |c.order| == MAX_FRAMES && b.output <= c.output && b.nextOrder <= c.nextOrder
    && (forall s | s in b.output :: c.order[s] == b.order[s])
    && forall s | s in c.output && s !in b.output :: s in b.toGet
  }

  lemma EnqueueGrown(b: Buffer, c: Buffer, pic: Slot, ranked: bool)
    requires Grown(b, c) && pic in c.toGet - c.output
    ensures Grown(b, Enqueue(c, pic, ranked))
  {
  }

  // The base pictures that waited and are queued now rank by display order, before those that still wait.
  ghost predicate DisplayOrder(b: Buffer, c: Buffer)
    requires |b.info| == |c.order| == MAX_FRAMES
  {
    var waited := b.toGet - b.output - b.nonBase;
    && (forall s | s in waited * c.output :: b.nextOrder <= c.order[s] < c.nextOrder)
    && (forall s, t | s in waited * c.output && t in waited - c.output :: Before(b.info, s, t))
    && forall s, t | s in waited * c.output && t in waited * c.output :: Before(b.info, s, t) ==>
        c.order[s] < c.order[t]
  }

  /** Bumping the first waiting base picture, or any dependent view, keeps the display order. */
  lemma EnqueueDisplay(b: Buffer, c: Buffer, pic: Slot)
    requires |b.info| == MAX_FRAMES && Grown(b, c) && DisplayOrder(b, c) && pic in c.toGet - c.output
    requires pic !in b.nonBase ==> forall s | s in c.toGet - c.output - c.nonBase && s != pic :: Before(b.info, pic, s)
    ensures DisplayOrder(b, Enqueue(c, pic, true))
  {
    var waited := b.toGet - b.output - b.nonBase;
    var r := Enqueue(c, pic, true);
    if pic in waited {
      assert pic in waited - c.output;
      forall t | t in waited * r.output
        ensures !Before(b.info, pic, t)
      {
        assert t == pic || t in waited * c.output;
      }
    }
    forall s, t | s in waited * r.output && t in waited * r.output && Before(b.info, s, t)
      ensures r.order[s] < r.order[t]
    {
      assert s in waited * c.output;
    }
  }

  lemma DisplayStart(b: Buffer)
    requires Inv(b)
    ensures DisplayOrder(b, b)
  {
  }

  lemma BumpedDisplay(b: Buffer, c: Buffer, pic: Slot)
    requires |b.info| == MAX_FRAMES && Grown(b, c) && DisplayOrder(b, c) && Bumpable(c, pic, false, {})
    requires forall s: Slot | Bumpable(c, s, false, {}) && s != pic :: Before(c.info, pic, s)
    ensures Grown(b, Enqueue(c, pic, true)) && DisplayOrder(b, Enqueue(c, pic, true))
  {
    hide DisplayOrder, Before, HasBase;
    assert forall s | s in c.toGet - c.output - c.nonBase :: Bumpable(c, s, false, {});
    EnqueueGrown(b, c, pic, true);
    EnqueueDisplay(b, c, pic);
  }

  lemma BumpedDependent(b: Buffer, c: Buffer, pic: Slot)
    requires |b.info| == MAX_FRAMES && Grown(b, c) && DisplayOrder(b, c) && Bumpable(c, pic, true, {})
    ensures Grown(b, Enqueue(c, pic, true)) && DisplayOrder(b, Enqueue(c, pic, true))
  {
    hide DisplayOrder, Before, HasBase;
    EnqueueGrown(b, c, pic, true);
    EnqueueDisplay(b, c, pic);
  }

  lemma MembersQueued(b: Buffer)
    requires Inv(b)
    ensures Members(b.base) == b.toGet * b.output - b.nonBase && Members(b.dependent) == b.toGet * b.output * b.nonBase
  {
  }

  /** What a flush does with a dependent view whose base view is missing: to the end of its queue. */
  function EnqueueLast(b: Buffer, pic: Slot): Buffer {
    b.(output := b.output + {pic}, dependent := b.dependent + [pic])
  }

  lemma EnqueueLastInv(b: Buffer, pic: Slot)
    requires Inv(b) && pic in b.toGet - b.output && pic in b.nonBase
    ensures Inv(EnqueueLast(b, pic)) && |b.dependent| < QUEUE_SIZE
  {
    hide Members, NoDuplicate;
    MembersIn(b.dependent, pic);
    RoomFor(b.dependent, pic);
    AppendedMembers(b.dependent, pic);
    var r := EnqueueLast(b, pic);
    assert r.toGet * r.output * r.nonBase == b.toGet * b.output * b.nonBase + {pic};
    assert r.toGet * r.output - r.nonBase == b.toGet * b.output - b.nonBase;
  }

  lemma EnqueueLastGrown(b: Buffer, c: Buffer, pic: Slot)
    requires Grown(b, c) && pic in c.toGet - c.output
    ensures Grown(b, EnqueueLast(c, pic))
  {
  }

  lemma DisplayKept(b: Buffer, c: Buffer, d: Buffer)
    requires |b.info| == MAX_FRAMES && Grown(b, c) && Grown(c, d) && DisplayOrder(b, c)
    requires d.order == c.order && d.nextOrder == c.nextOrder && forall s | s in d.output - c.output :: s in b.nonBase
    ensures DisplayOrder(b, d)
  {
    var waited := b.toGet - b.output - b.nonBase;
    assert waited * d.output == waited * c.output;
    assert waited - d.output == waited - c.output;
  }

  // --- catching up ---

  // The dependent views to get of an access unit, and the first of them in decoding order.
  predicate Follows(b: Buffer, q: Slot, d: Slot)
    requires |b.info| == MAX_FRAMES
  {
    d in b.toGet * b.nonBase && Same(b.info, q, d)
  }

  ghost predicate FirstDependent(b: Buffer, q: Slot, d: Slot)
    requires |b.info| == MAX_FRAMES
  {
    Follows(b, q, d) && forall e: Slot | Follows(b, q, e) :: b.info[d].frameId <= b.info[e].frameId
  }

  // A queued base view such that it and all queued ones ranking before it have their dependent view parsed.
  ghost predicate Reached(b: Buffer, q: Slot)
    requires |b.info| == |b.order| == MAX_FRAMES
  {
    q in b.base && forall r | r in b.base && b.order[r] <= b.order[q] :: exists d: Slot :: Follows(b, r, d)
  }

  // The base views walked so far, all reached, rank before the others, and what was queued for them.
  ghost predicate Walked(b: Buffer, done: set<Slot>, output: set<Slot>)
    requires |b.info| == |b.order| == MAX_FRAMES
  {
    && (forall q | q in done :: Reached(b, q))
    && (forall q, r | q in done && r in b.base && r !in done :: b.order[q] < b.order[r])
    && (forall q, d: Slot | q in done && FirstDependent(b, q, d) :: d in output)
    && b.output <= output && forall d | d in output - b.output :: exists q :: q in done && FirstDependent(b, q, d)
  }

  ghost predicate WalkEnds(b: Buffer, done: set<Slot>)
    requires |b.info| == |b.order| == MAX_FRAMES
  {
    forall q: Slot :: Reached(b, q) ==> q in done
  }

  lemma WalkedAll(b: Buffer, done: set<Slot>)
    requires |b.info| == |b.order| == MAX_FRAMES && forall q | q in b.base :: q in done
    ensures WalkEnds(b, done)
  {
  }

  lemma WalkStops(b: Buffer, done: set<Slot>, front: Slot)
    requires |b.info| == |b.order| == MAX_FRAMES && front in b.base && front !in done
    requires forall q | q in b.base && q !in done :: b.order[front] <= b.order[q]
    requires forall d: Slot :: !Follows(b, front, d)
    ensures WalkEnds(b, done)
  {
  }

  lemma WalkOn(b: Buffer, done: set<Slot>, output: set<Slot>, front: Slot, dep: Slot)
    requires Inv(b) && Walked(b, done, output) && front in b.base && front !in done
    requires forall q | q in b.base && q !in done :: b.order[front] <= b.order[q]
    requires FirstDependent(b, front, dep)
    ensures Walked(b, done + {front}, output + {dep})
  {
    hide Members, NoDuplicate, Same;
    assert Reached(b, front) by {
      forall r | r in b.base && b.order[r] <= b.order[front]
        ensures exists d: Slot :: Follows(b, r, d)
      {
        if r in done {
          assert Reached(b, r);
        } else {
          assert r == front && Follows(b, r, dep);
        }
      }
    }
    forall d: Slot | FirstDependent(b, front, d)
      ensures d == dep
    {
      assert Follows(b, front, d) && Follows(b, front, dep);
    }
    WalkOrder(b, done, front);
    forall d | d in output + {dep} - b.output
      ensures exists q :: q in done + {front} && FirstDependent(b, q, d)
    {
      if d in output {
        assert d in output - b.output;
      } else {
        assert front in done + {front} && FirstDependent(b, front, d);
      }
    }
  }

  lemma WalkOrder(b: Buffer, done: set<Slot>, front: Slot)
    requires Inv(b) && front in b.base && front !in done
    requires forall q, r | q in done && r in b.base && r !in done :: b.order[q] < b.order[r]
    requires forall q | q in b.base && q !in done :: b.order[front] <= b.order[q]
    ensures forall q, r | q in done + {front} && r in b.base && r !in done + {front} :: b.order[q] < b.order[r]
  {
    hide Members, NoDuplicate;
  }

  lemma FollowsGrown(b: Buffer, c: Buffer, q: Slot)
    requires |b.info| == MAX_FRAMES && Grown(b, c)
    ensures forall d: Slot :: Follows(b, q, d) == Follows(c, q, d) && FirstDependent(b, q, d) == FirstDependent(c, q, d)
  {
    assert forall d: Slot :: Follows(b, q, d) == Follows(c, q, d);
  }

  lemma FirstFollows(b: Buffer, q: Slot, d: Slot)
    requires |b.info| == MAX_FRAMES && FirstDependent(b, q, d)
    ensures d in b.toGet && d in b.nonBase
  {
  }

  lemma WalkStart(b: Buffer)
    requires |b.info| == |b.order| == MAX_FRAMES
    ensures Walked(b, {}, b.output)
  {
  }

  lemma WalkDone(b: Buffer, done: set<Slot>, output: set<Slot>)
    requires |b.info| == |b.order| == MAX_FRAMES && Walked(b, done, output) && WalkEnds(b, done)
    ensures forall d: Slot :: d in output <==>
              d in b.output || exists q: Slot :: Reached(b, q) && FirstDependent(b, q, d)
  {
    hide Reached, FirstDependent;
    forall d: Slot | d in output && d !in b.output
      ensures exists q: Slot :: Reached(b, q) && FirstDependent(b, q, d)
    {
      assert d in output - b.output;
    }
  }

  lemma GrownSelf(b: Buffer)
    requires Inv(b)
    ensures Grown(b, b)
  {
  }

  // --- what get_frame hands out ---

  /**
   * The base view that goes out next: of those complete, or while flushing any but the one being parsed, the one
   * of lowest rank. Unless flushing, it is held back while the one of lowest rank of all is parsed or written.
   */
  ghost predicate NextShown(b: Buffer, complete: set<Slot>, busy: set<Slot>, flushing: bool, current: int, q: Slot)
    requires |b.order| == MAX_FRAMES
  {
    && q in b.base && (q in complete || (flushing && q != current))
    && (forall r | r in b.base && (r in complete || (flushing && r != current)) :: b.order[q] <= b.order[r])
    && (flushing || forall r | r in b.base && r != q && Lowest(b, r) :: r != current && r !in busy)
  }

  ghost predicate Lowest(b: Buffer, r: Slot)
    requires |b.order| == MAX_FRAMES
  {
    forall t | t in b.base :: b.order[r] <= b.order[t]
  }

  // The first waiting dependent view of an access unit in decoding order.
  ghost predicate FirstWaiting(b: Buffer, q: Slot, d: Slot)
    requires |b.info| == MAX_FRAMES
  {
    && Follows(b, q, d) && d !in b.output
    && forall e: Slot | Follows(b, q, e) && e !in b.output :: b.info[d].frameId <= b.info[e].frameId
  }

  // A dependent view goes with it: a complete queued one, or the first waiting one if that is complete.
  ghost predicate Paired(b: Buffer, complete: set<Slot>, q: Slot)
    requires |b.info| == MAX_FRAMES
  {
    || (exists d: Slot :: d in complete && d in b.output && Follows(b, q, d))
    || exists d: Slot :: d in complete && FirstWaiting(b, q, d)
  }

  // No dependent view is left of it, and the decoder flushes or has no room for another picture.
  ghost predicate Alone(b: Buffer, flushing: bool, q: Slot)
    requires |b.info| == MAX_FRAMES
  {
    && (forall d: Slot :: !Follows(b, q, d))
    && (flushing || |b.base| + |b.dependent| + AtLeastOne(Card(b.toGet - b.output)) > QUEUE_SIZE)
  }

  lemma AloneFlushing(b: Buffer, q: Slot)
    requires |b.info| == MAX_FRAMES
    ensures (forall d: Slot :: !Follows(b, q, d)) ==> Alone(b, true, q)
  {
  }

  function AtLeastOne(n: nat): nat {
    if n == 0 then 1 else n
  }

  /** What get_frame hands out. */
  ghost predicate Leaves(b: Buffer, complete: set<Slot>, busy: set<Slot>, flushing: bool, current: int, two: bool,
                         q: Slot)
    requires |b.info| == |b.order| == MAX_FRAMES
  {
    && NextShown(b, complete, busy, flushing, current, q)
    && (two ==> Paired(b, complete, q) || Alone(b, flushing, q))
  }

  lemma NextUnique(b: Buffer, complete: set<Slot>, busy: set<Slot>, flushing: bool, current: int, q: Slot, r: Slot)
    requires |b.order| == MAX_FRAMES && Ranked(b)
    requires NextShown(b, complete, busy, flushing, current, q) && NextShown(b, complete, busy, flushing, current, r)
    ensures q == r
  {
  }

  lemma NextUniqueAll(b: Buffer, complete: set<Slot>, busy: set<Slot>, flushing: bool, current: int)
    requires Inv(b)
    ensures forall q: Slot, r: Slot | NextShown(b, complete, busy, flushing, current, q)
              && NextShown(b, complete, busy, flushing, current, r) :: q == r
  {
    hide Queued, Once;
  }

  lemma FirstUnique(b: Buffer, q: Slot, d: Slot)
    requires Inv(b) && FirstWaiting(b, q, d)
    ensures forall e: Slot | FirstWaiting(b, q, e) :: e == d
  {
    hide Queued, Ranked, Same;
  }

  lemma InDependentMeans(b: Buffer, d: Slot)
    requires Inv(b) && d in b.dependent
    ensures d in b.toGet && d in b.output && d in b.nonBase
  {
    assert d in Members(b.dependent);
  }

  /**
   * Whenever the queued base view of lowest rank is complete, and so are its dependent views, of which with two
   * views it has one, it is handed out.
   */
  lemma CompleteLeaves(b: Buffer, complete: set<Slot>, busy: set<Slot>, flushing: bool, current: int, two: bool,
                       q: Slot, d: Slot)
    requires Inv(b) && q in b.base && q in complete && Lowest(b, q)
    requires two ==> Follows(b, q, d) && forall e: Slot | Follows(b, q, e) :: e in complete
    ensures Leaves(b, complete, busy, flushing, current, two, q)
  {
    hide Queued, Once, Same, Card;
    assert forall r | r in b.base && Lowest(b, r) :: r == q;
    if two && d !in b.output {
      var f := FirstOf(b, q, d);
    }
  }

  lemma {:induction false} FirstOf(b: Buffer, q: Slot, d: Slot) returns (f: Slot)
    requires |b.info| == MAX_FRAMES && Follows(b, q, d) && d !in b.output
    ensures FirstWaiting(b, q, f)
  {
    hide Follows;
    var waiting: set<Slot> := set e | 0 <= e < MAX_FRAMES && Follows(b, q, e) && e !in b.output;
    f := d;
    var i := 0;
    while i < MAX_FRAMES
      invariant i <= MAX_FRAMES && f in waiting
      invariant forall e | e in waiting && e < i :: b.info[f].frameId <= b.info[e].frameId
    {
      if i in waiting && b.info[i].frameId < b.info[f].frameId {
        f := i;
      }
      i := i + 1;
    }
  }

  // A base view, maybe with a dependent one of its access unit, neither delivered before nor held.
  ghost predicate HandedOut(b: Buffer, c: Buffer, pic0: Slot, pic1: int, borrow: bool)
    requires |b.info| == |b.order| == MAX_FRAMES && -1 <= pic1 < MAX_FRAMES
  {
    var out: set<Slot> := if pic1 < 0 then {pic0} else {pic0, pic1};
    && pic0 in b.base && pic0 !in b.nonBase && pic0 in b.output
    && (pic1 >= 0 ==> pic1 in b.nonBase && Same(b.info, pic0, pic1))
    && out <= b.toGet && out !! b.held && (forall s | s in out :: b.info[s].frameId !in b.delivered)
    && c.info == b.info && c.nonBase == b.nonBase && c.order == b.order
    && c.toGet == b.toGet - out && c.delivered == b.delivered + (set s | s in out :: b.info[s].frameId)
    && c.held == (if borrow then b.held + out else b.held) && c.lastId == b.lastId
    && c.output == (if borrow then b.output + out else b.output - out) && c.shown == b.shown + [b.order[pic0]]
  }

  lemma HandedOutMeans(b: Buffer, c: Buffer, idx0: nat, idx1: int, borrow: bool)
    requires Inv(b) && Inv(c) && Grown(b, c) && c.base == b.base && c.order == b.order
    requires idx0 < |c.base| && -1 <= idx1 < |c.dependent|
    requires idx1 >= 0 ==> Same(b.info, c.base[idx0], c.dependent[idx1])
    requires c.output == if idx1 >= 0 then b.output + {c.dependent[idx1]} else b.output
    ensures var r := DeliverBase(c, idx0, borrow);
            HandedOut(b, if idx1 < 0 then r else DeliverDependent(r, idx1, borrow),
                      c.base[idx0], if idx1 < 0 then -1 else c.dependent[idx1], borrow)
  {
    hide Same, IsFirst, NoDuplicate, Ranked, Members;
    MembersIn(b.base, c.base[idx0]);
    MembersIn(c.base, c.base[idx0]);
    if idx1 >= 0 {
      MembersIn(c.dependent, c.dependent[idx1]);
    }
  }

  lemma HandedOutSets(b: Buffer, c: Buffer, pic0: Slot, pic1: int, borrow: bool)
    requires |b.info| == |b.order| == MAX_FRAMES && -1 <= pic1 < MAX_FRAMES && HandedOut(b, c, pic0, pic1, borrow)
    ensures var out: set<Slot> := if pic1 < 0 then {pic0} else {pic0, pic1};
            && pic0 in b.base && out <= b.toGet && c.toGet == b.toGet - out
            && c.held == (if borrow then b.held + out else b.held)
            && c.output == if borrow then b.output + out else b.output - out
  {
  }

  lemma HandedOutLess(b: Buffer, c: Buffer, pic0: Slot, pic1: int, borrow: bool)
    requires |b.info| == |b.order| == MAX_FRAMES && -1 <= pic1 < MAX_FRAMES && HandedOut(b, c, pic0, pic1, borrow)
    ensures |c.info| == |c.order| == MAX_FRAMES && c.toGet < b.toGet && c.nonBase == b.nonBase && c.info == b.info
    ensures forall s | s in c.toGet && s in b.output :: s in c.output
    ensures b.delivered <= c.delivered && forall s | s in b.toGet && s !in c.toGet :: b.info[s].frameId in c.delivered
  {
    assert pic0 in b.toGet - c.toGet;
  }

  lemma BaseToGet(b: Buffer)
    requires Inv(b)
    ensures forall s | s in b.base :: s in b.toGet
  {
    forall s | s in b.base
      ensures s in b.toGet
    {
      assert s in Members(b.base);
    }
  }

  lemma NoDependents(b: Buffer)
    requires Inv(b) && b.base == [] && b.toGet !! b.nonBase && forall s | s in b.toGet :: s in b.output
    ensures b.toGet == {}
  {
    assert b.toGet * b.output - b.nonBase == b.toGet;
  }

  // --- orphans ---

  lemma ShrunkMeans(b: Buffer, c: Buffer)
    requires Shrunk(b, c)
    ensures c.toGet <= b.toGet && c.nonBase == b.nonBase && c.info == b.info && c.order == b.order
        && c.delivered == b.delivered
    ensures forall s | s in c.toGet && s in b.output :: s in c.output
    ensures forall s | s in b.toGet && s !in c.toGet :: s in b.nonBase
  {
    forall s | s in b.toGet && s !in c.toGet
      ensures s in b.nonBase
    {
      assert s in b.toGet - c.toGet;
    }
  }

  lemma AllOrphans(b: Buffer, s: Slot)
    requires Inv(b) && b.base == [] && s in b.toGet && forall r | r in b.toGet :: r in b.output
    ensures Orphan(b, {}, -1, s) && s in b.nonBase && s in b.output
  {
    hide NoDuplicate, Same;
    forall r | r in b.toGet
      ensures r in b.nonBase
    {
      assert r in b.toGet * b.output - b.nonBase <==> r in Members(b.base);
    }
  }

  lemma OrphansNotCurrent(b: Buffer, c: Buffer, busy: set<Slot>, current: int)
    requires |b.info| == MAX_FRAMES && Shrunk(b, c)
    requires forall s | s in b.toGet && s !in c.toGet :: Orphan(b, busy, current, s)
    ensures c.info == b.info && c.lastId == b.lastId && c.delivered == b.delivered && c.toGet <= b.toGet
    ensures c.output <= b.output && (current in b.toGet ==> current in c.toGet)
  {
    hide HasBase;
  }

  lemma QueuedOutput(b: Buffer, i: nat)
    requires Inv(b) && i < |b.dependent|
    ensures b.dependent[i] in b.output && b.output + {b.dependent[i]} == b.output
  {
    assert b.dependent[i] in Members(b.dependent);
  }

  lemma ToGetUnseen(b: Buffer, pic: Slot)
    requires Inv(b) && pic in b.toGet
    ensures b.info[pic].frameId !in b.delivered
  {
  }

  lemma GrownNew(b: Buffer, c: Buffer)
    requires Grown(b, c)
    ensures forall s | s in c.output && s !in b.output :: s in b.toGet
  {
  }

  lemma InDependent(b: Buffer, s: Slot)
    requires Inv(b) && s in b.nonBase
    ensures s in b.toGet && s in b.output ==> s in b.dependent
  {
    if s in b.toGet && s in b.output {
      InQueue1(b, s);
    }
  }

  // A queued dependent view without a base view, neither being parsed nor written.
  ghost predicate Orphan(b: Buffer, busy: set<Slot>, current: int, d: Slot)
    requires |b.info| == MAX_FRAMES
  {
    d != current && d !in busy && !HasBase(b.info, b.toGet + busy - b.nonBase, d)
  }

  // Only queued dependent views left.
  ghost predicate Shrunk(b: Buffer, c: Buffer) {
    && c == b.(toGet := c.toGet, output := c.output, dependent := c.dependent) && c.toGet <= b.toGet
    && b.toGet - c.toGet <= b.output * b.nonBase && c.output == b.output - (b.toGet - c.toGet)
  }

  lemma ShrunkSelf(b: Buffer)
    ensures Shrunk(b, b)
  {
  }

  lemma DropShrunk(b: Buffer, c: Buffer, i: nat)
    requires Inv(c) && Shrunk(b, c) && i < |c.dependent|
    ensures Shrunk(b, DropQueued(c, i)) && c.dependent[i] in c.toGet
  {
    hide NoDuplicate;
    assert c.dependent[i] in Members(c.dependent);
  }

  lemma InQueue1(b: Buffer, d: Slot)
    requires Inv(b) && d in b.toGet && d in b.nonBase && d in b.output
    ensures d in b.dependent
  {
    assert d in Members(b.dependent);
  }

  // --- fullness ---

  /** The queue of a view and its waiting pictures fit the queue; a full queue holds every slot. */
  lemma QueueFits(b: Buffer, nonBaseView: bool)
    requires Inv(b)
    ensures var q := if nonBaseView then b.dependent else b.base;
            && |q| + Card(Waiting(b, nonBaseView)) <= QUEUE_SIZE
            && (|q| == QUEUE_SIZE ==> forall s: Slot :: s in b.toGet && s in b.output)
  {
    hide Card, NoDuplicate, Slots;
    var q := if nonBaseView then b.dependent else b.base;
    MembersCard(q);
    CardJoin(Members(q), Waiting(b, nonBaseView));
    CardSubset(Members(q) + Waiting(b, nonBaseView), Slots(MAX_FRAMES));
    forall s: Slot | |q| == QUEUE_SIZE
      ensures s in b.toGet && s in b.output
    {
      if s !in q {
        RoomFor(q, s);
      } else {
        assert s in Members(q);
      }
    }
  }

  lemma FullView(b: Buffer, nonBaseView: bool)
    requires Inv(b) && |if nonBaseView then b.dependent else b.base| >= QUEUE_SIZE
    ensures forall s: Slot :: !Bumpable(b, s, nonBaseView, {})
  {
    hide Card, Inv, HasBase;
    InfoShape(b);
    QueueFits(b, nonBaseView);
  }

  // With all base views queued, a dependent view that has one to get would be bumped.
  lemma BasesQueued(c: Buffer, e: Buffer)
    requires |c.info| == MAX_FRAMES && Grown(c, e)
    requires forall s: Slot :: !Bumpable(c, s, false, {})
    requires forall s: Slot :: !Bumpable(e, s, true, {})
    ensures forall s | s in e.toGet && s !in e.output :: s in e.nonBase && !HasBase(e.info, e.toGet - e.nonBase, s)
  {
    hide Same;
    forall s | s in e.toGet && s !in e.output
      ensures s in e.nonBase && !HasBase(e.info, e.toGet - e.nonBase, s)
    {
      assert !Bumpable(c, s, false, {}) && !Bumpable(e, s, true, {});
      forall q | q in e.toGet - e.nonBase
        ensures q in e.output - e.nonBase
      {
        assert !Bumpable(c, q, false, {});
      }
    }
  }

  // --- adding the current picture ---

  // The pictures of a view that wait, and those of them of lower picture order count.
  function Waiting(b: Buffer, nonBaseView: bool): set<Slot> {
    set s | s in b.toGet - b.output && (s in b.nonBase <==> nonBaseView)
  }

  function Lower(b: Buffer, poc: int): set<Slot>
    requires |b.info| == MAX_FRAMES
  {
    set s | s in Waiting(b, false) && b.info[s].poc < poc
  }

  // The same for either view.
  function Earlier(b: Buffer, poc: int, nonBaseView: bool): set<Slot>
    requires |b.info| == MAX_FRAMES
  {
    set s | s in b.toGet - b.output && (s in b.nonBase <==> nonBaseView) && b.info[s].poc < poc
  }

  // What bumping a picture of a view makes of a buffer: the first waiting one in display order gets the next rank.
  ghost predicate Bumped(b: Buffer, c: Buffer, nonBaseView: bool)
  {
    && |b.info| == |b.order| == MAX_FRAMES
    && (c == b || exists pic: Slot :: c == Enqueue(b, pic, true) && FirstToBump(b, pic, nonBaseView))
    && (c == b ==> forall s: Slot :: !Bumpable(b, s, nonBaseView, {}))
  }

  ghost predicate FirstToBump(b: Buffer, pic: Slot, nonBaseView: bool)
    requires |b.info| == MAX_FRAMES
  {
    && Bumpable(b, pic, nonBaseView, {})
    && forall s: Slot | Bumpable(b, s, nonBaseView, {}) && s != pic :: Before(b.info, pic, s)
  }

  /** The pictures of a view to bump, and which of them comes first. */
  lemma FirstToBumpMeans(b: Buffer, pic: Slot, s: Slot, nonBaseView: bool)
    requires |b.info| == MAX_FRAMES
    ensures Bumpable(b, s, nonBaseView, {}) <==>
            && s in b.toGet && s !in b.output && (s in b.nonBase <==> nonBaseView)
            && (nonBaseView ==> exists q | q in b.output && q !in b.nonBase :: Same(b.info, q, s))
    ensures FirstToBump(b, pic, nonBaseView) && Bumpable(b, s, nonBaseView, {}) && s != pic ==>
            && b.info[pic].poc <= b.info[s].poc
            && (b.info[pic].poc == b.info[s].poc ==> b.info[pic].frameId < b.info[s].frameId)
  {
    hide Same;
    if HasBase(b.info, b.output - b.nonBase, s) {
      var q :| q in b.output - b.nonBase && Same(b.info, q, s);
      assert q in b.output && q !in b.nonBase;
    }
  }

  // The buffers on the way to room for a picture: one is bumped while references and waiting pictures exceed it.
  ghost predicate Steps(S: seq<Buffer>, references: set<Slot>, maxBuffering: nat, nonBaseView: bool) {
    && |S| > 0
    && forall i | 0 <= i < |S| - 1 ::
      && Bumped(S[i], S[i + 1], nonBaseView)
      && Popcount(references, S[i].toGet - S[i].output) > maxBuffering
  }

  /**
   * C.4.5.1 and C.4.5.3, step by step: pictures are bumped while there is no room, as many as may be. Then the
   * picture waits if there is room, with one more bumped if too many wait, and otherwise it is output at once.
   */
  ghost predicate Admitted(S: seq<Buffer>, c: Buffer, pic: Slot, references: set<Slot>, limit: nat, maxBuffering: nat,
        maxReorder: nat, nonBaseView: bool)
  {
    && Steps(S, references, maxBuffering, nonBaseView) && |S| - 1 <= limit
    && var last := S[|S| - 1];
       && |last.order| == MAX_FRAMES
       && var inserted := Insert(last, pic);
          if Popcount(references, last.toGet - last.output) > maxBuffering
          then |S| - 1 == limit && c == Enqueue(inserted, pic, true)
          else if Card(Waiting(inserted, nonBaseView)) > maxReorder then Bumped(inserted, c, nonBaseView)
          else c == inserted
  }

  lemma StepsStart(b: Buffer, references: set<Slot>, maxBuffering: nat, nonBaseView: bool)
    ensures Steps([b], references, maxBuffering, nonBaseView)
  {
  }

  lemma StepsOn(S: seq<Buffer>, c: Buffer, references: set<Slot>, maxBuffering: nat, nonBaseView: bool)
    requires Steps(S, references, maxBuffering, nonBaseView) && Bumped(S[|S| - 1], c, nonBaseView)
    requires Popcount(references, S[|S| - 1].toGet - S[|S| - 1].output) > maxBuffering
    ensures Steps(S + [c], references, maxBuffering, nonBaseView)
  {
    hide Bumped, Popcount;
  }

  /** Bumping takes one of them, if there are any. */
  lemma LowerBump(b: Buffer, poc: int, pic: Slot)
    requires |b.info| == |b.order| == MAX_FRAMES && pic in Waiting(b, false)
    requires forall s | s in Waiting(b, false) && s != pic :: Before(b.info, pic, s)
    ensures var r := Card(Lower(Enqueue(b, pic, true), poc));
            r == if Card(Lower(b, poc)) == 0 then 0 else Card(Lower(b, poc)) - 1
  {
    hide Card;
    var c := Enqueue(b, pic, true);
    assert Waiting(c, false) == Waiting(b, false) - {pic};
    if Lower(b, poc) == {} {
      CardEmpty(Lower(b, poc));
      CardEmpty(Lower(c, poc));
    } else {
      var s :| s in Lower(b, poc);
      assert pic in Lower(b, poc);
      assert Lower(c, poc) == Lower(b, poc) - {pic};
      CardDrop(Lower(b, poc), pic);
    }
  }

  lemma WaitingBump(b: Buffer, pic: Slot, nonBaseView: bool)
    requires |b.order| == MAX_FRAMES && pic in Waiting(b, nonBaseView)
    ensures Card(Waiting(Enqueue(b, pic, true), nonBaseView)) == Card(Waiting(b, nonBaseView)) - 1
  {
    hide Card;
    assert Waiting(Enqueue(b, pic, true), nonBaseView) == Waiting(b, nonBaseView) - {pic};
    CardDrop(Waiting(b, nonBaseView), pic);
  }

  function Less(n: nat): nat {
    if n == 0 then 0 else n - 1
  }

  // What bumping one picture of a view does to the numbers of waiting pictures.
  ghost predicate OneLess(b: Buffer, c: Buffer, poc: int, nonBaseView: bool)
    requires |b.info| == |c.info| == MAX_FRAMES
  {
    && (forall s | s in c.output - b.output :: s in b.toGet)
    && (!nonBaseView ==> Card(Lower(c, poc)) == Less(Card(Lower(b, poc))))
    && Card(Waiting(c, false)) == if nonBaseView then Card(Waiting(b, false)) else Less(Card(Waiting(b, false)))
  }

  lemma LessMeans(b: Buffer, c: Buffer, poc: int, nonBaseView: bool)
    requires |b.info| == |c.info| == MAX_FRAMES && OneLess(b, c, poc, nonBaseView)
    ensures forall s | s in c.output - b.output :: s in b.toGet
    ensures !nonBaseView ==> Card(Lower(c, poc)) == Less(Card(Lower(b, poc)))
    ensures Card(Waiting(c, false)) == if nonBaseView then Card(Waiting(b, false)) else Less(Card(Waiting(b, false)))
  {
  }

  lemma BumpedLess(b: Buffer, pic: Slot, poc: int, nonBaseView: bool)
    requires |b.info| == |b.order| == MAX_FRAMES && Bumpable(b, pic, nonBaseView, {})
    requires forall s: Slot | Bumpable(b, s, nonBaseView, {}) && s != pic :: Before(b.info, pic, s)
    ensures OneLess(b, Enqueue(b, pic, true), poc, nonBaseView)
  {
    hide Card, Lower, HasBase, Before;
    if nonBaseView {
      assert Waiting(Enqueue(b, pic, true), false) == Waiting(b, false);
    } else {
      assert forall s | s in Waiting(b, false) :: Bumpable(b, s, false, {});
      LowerBump(b, poc, pic);
      WaitingBump(b, pic, false);
    }
  }

  lemma NoneLess(b: Buffer, poc: int, nonBaseView: bool)
    requires |b.info| == MAX_FRAMES && forall s: Slot :: !Bumpable(b, s, nonBaseView, {})
    ensures OneLess(b, b, poc, nonBaseView)
  {
    hide Card, HasBase;
    if !nonBaseView {
      assert forall s | s in Waiting(b, false) :: Bumpable(b, s, false, {});
      CardEmpty(Waiting(b, false));
      CardEmpty(Lower(b, poc));
    }
  }

  lemma BumpableWaits(b: Buffer, pic: Slot, nonBaseView: bool)
    requires |b.info| == MAX_FRAMES && Bumpable(b, pic, nonBaseView, {})
    ensures pic in b.toGet - b.output
  {
  }

  lemma GrownSame(b: Buffer, c: Buffer)
    requires Grown(b, c)
    ensures c.toGet == b.toGet && c.info == b.info && c.nonBase == b.nonBase && c.lastId == b.lastId
    ensures c.delivered == b.delivered && b.output <= c.output
  {
  }

  lemma GrownInsert(b: Buffer, c: Buffer, pic: Slot)
    requires Grown(b, c)
    ensures Grown(Insert(b, pic), Insert(c, pic))
  {
  }

  lemma WaitingMeans(b: Buffer, nonBaseView: bool)
    ensures forall s: Slot :: s in Waiting(b, nonBaseView) <==>
              s in b.toGet && s !in b.output && (s in b.nonBase <==> nonBaseView)
  {
  }

  // A picture that is inserted and queued at once does not wait.
  lemma InsertedAtOnce(b: Buffer, pic: Slot, poc: int)
    requires |b.info| == |b.order| == MAX_FRAMES && pic !in b.toGet
    ensures var r := Enqueue(Insert(b, pic), pic, true);
            Waiting(r, false) == Waiting(b, false) && Lower(r, poc) == Lower(b, poc)
  {
  }

  lemma GrownOn(b: Buffer, c: Buffer, d: Buffer)
    requires Grown(b, c) && Grown(c, d)
    ensures Grown(b, d)
  {
  }

  lemma WaitingInsert(b: Buffer, pic: Slot, nonBaseView: bool)
    requires pic !in b.toGet + b.output && (pic in b.nonBase <==> nonBaseView)
    ensures pic in Waiting(Insert(b, pic), nonBaseView)
    ensures Card(Waiting(Insert(b, pic), nonBaseView)) == Card(Waiting(b, nonBaseView)) + 1
  {
    hide Card;
    var r := Insert(b, pic);
    assert Waiting(r, nonBaseView) - {pic} == Waiting(b, nonBaseView);
    CardDrop(Waiting(r, nonBaseView), pic);
  }

  lemma PopcountGrows(references: set<Slot>, a: set<Slot>, b: set<Slot>)
    requires a <= b
    ensures Popcount(references, a) <= Popcount(references, b)
  {
    CardSubset(references + a, references + b);
  }

  lemma OnceShape(b: Buffer)
    requires Inv(b)
    ensures |b.info| == |b.order| == MAX_FRAMES && b.held <= b.output
  {
  }

  lemma InfoShape(b: Buffer)
    requires Inv(b)
    ensures |b.info| == |b.order| == MAX_FRAMES
  {
  }

  lemma DifferentIds(b: Buffer, s: Slot, t: Slot)
    requires Inv(b) && s in b.toGet && t in b.toGet && s != t && !Before(b.info, s, t)
    ensures Before(b.info, t, s)
  {
  }
}
