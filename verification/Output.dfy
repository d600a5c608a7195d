/** The decoder's side of the picture buffer: bumping, allocation, insertion, flushing and the calls of the caller. */
module Output {
  import opened Marking
  import opened OutputQueue
  import opened Dpb
  import opened Sets

  class Decoder {
    const queue0: Queue
    const queue1: Queue
    var toGet: set<Slot>
    var output: set<Slot>
    var nonBase: set<Slot>
    var info: seq<Picture>
    var dispOrder: seq<int>
    var nextDispnum: int
    var prevFrameId: int
    var lastBaseId: int
    var currPic: int
    var complete: set<Slot> // slots whose pictures are completely decoded
    var busy: set<Slot> // slots written by tasks in flight
    var flushing: bool
    const twoViews: bool
    ghost var held: set<Slot>
    ghost var delivered: set<int>
    ghost var shown: seq<int>
    ghost var inOrder: bool

    ghost function State(): Buffer
      reads this, queue0, queue1
    {
      Buffer(toGet, output, nonBase, queue0.contents, queue1.contents, info, dispOrder, nextDispnum,
             prevFrameId, lastBaseId, held, delivered, shown, inOrder)
    }

    ghost predicate Apart()
      reads this, queue0, queue1, queue0.entries, queue1.entries
    {
      queue0 != queue1 && queue0.entries != queue1.entries && queue0.Valid() && queue1.Valid()
    }

    ghost predicate Valid()
      reads this, queue0, queue1, queue0.entries, queue1.entries
    {
      Apart() && Inv(State())
    }

    /** A current picture that does not wait is complete and was delivered, or incomplete and not seen yet. */
    ghost predicate Current()
      reads this, queue0, queue1
    {
      |info| == MAX_FRAMES && Tracked(State(), complete, currPic)
    }

    constructor (two: bool)
      ensures Valid() && Current() && twoViews == two && toGet == {} && output == {} && fresh(queue0) && fresh(queue1)
      ensures fresh(queue0.entries) && fresh(queue1.entries)
    {
      queue0 := new Queue();
      queue1 := new Queue();
      toGet, output, nonBase := {}, {}, {};
      info, dispOrder := seq(MAX_FRAMES, i => Picture(0, 0, 0, 0, 0)), seq(MAX_FRAMES, i => 0);
      nextDispnum, prevFrameId, lastBaseId, currPic := 0, -1, 0, -1;
      complete, busy, flushing, twoViews := {}, {}, false, two;
      held, delivered, shown, inOrder := {}, {}, [], true;
    }

    // --- bumping ---

    // Marks a waiting picture for output and pushes it on the queue of its view, which has room.
    method Queued(pic: Slot, ranked: bool)
      requires Valid() && pic in toGet - output && (ranked || pic in nonBase)
      modifies this`output, this`dispOrder, this`nextDispnum, queue0, queue0.entries, queue1, queue1.entries
      ensures Valid() && State() == Enqueue(old(State()), pic, ranked)
    {
      hide Inv;
      EnqueueInv(State(), pic, ranked);
      InfoShape(State());
      if ranked {
        dispOrder := dispOrder[pic := nextDispnum];
        nextDispnum := nextDispnum + 1;
      }
      output := output + {pic};
      if pic in nonBase {
        queue1.Push(pic);
      } else {
        queue0.Push(pic);
      }
    }

    // Whether one of these base views belongs to the access unit of a dependent view.
    method AnyBase(bases: set<Slot>, d: Slot) returns (found: bool)
      requires |info| == MAX_FRAMES
      ensures found <==> HasBase(info, bases, d)
    {
      found := false;
      for q := 0 to MAX_FRAMES
        invariant found <==> exists r | r in bases && r < q :: Same(info, r, d)
      {
        if q in bases && Same(info, q, d) {
          found := true;
        }
      }
    }

    /** bump_frame: the first waiting picture of a view in display order enters the queue, with the next rank. */
    method Bump(nonBaseView: bool, ignored: set<Slot>) returns (bumped: bool, ghost pic: Slot)
      requires Valid()
      modifies this`output, this`dispOrder, this`nextDispnum, queue0, queue0.entries, queue1, queue1.entries
      ensures Valid()
      ensures bumped <==> exists s: Slot :: Bumpable(old(State()), s, nonBaseView, ignored)
      ensures !bumped ==> State() == old(State())
      ensures bumped ==> Bumpable(old(State()), pic, nonBaseView, ignored)
      ensures bumped ==> State() == Enqueue(old(State()), pic, true)
      ensures bumped ==> forall s: Slot | Bumpable(old(State()), s, nonBaseView, ignored) && s != pic ::
                           Before(info, pic, s)
    {
      hide Inv, Same, HasBase;
      var best: int := -1;
      InfoShape(State());
      ghost var b := State();
      for i := 0 to MAX_FRAMES
        invariant -1 <= best < i && State() == b && Apart()
        invariant best < 0 ==> forall s: Slot | s < i :: !Bumpable(b, s, nonBaseView, ignored)
        invariant best >= 0 ==> Bumpable(b, best, nonBaseView, ignored)
        invariant best >= 0 ==> forall s: Slot | s < i && s != best
            && Bumpable(b, s, nonBaseView, ignored) :: Before(info, best, s)
      {
        if i in toGet && i !in output && (i in nonBase <==> nonBaseView) && i !in ignored {
          var paired := !nonBaseView;
          if nonBaseView {
            paired := AnyBase(output - nonBase, i);
          }
          if paired {
            if best < 0 || Before(info, i, best) {
              best := i;
            } else {
              DifferentIds(b, i, best);
            }
          }
        }
      }
      pic := 0;
      bumped := best >= 0;
      if bumped {
        pic := best;
        Queued(best, true);
      }
    }

    /**
     * catch_up_dependent_bumps: walking the queued base views by rank, each one's dependent view is queued,
     * up to the first whose dependent view was not parsed yet. Which ones depends on what was parsed alone.
     */
    method CatchUp()
      requires Valid()
      modifies this`output, queue1, queue1.entries
      ensures Valid() && Grown(old(State()), State())
      ensures !twoViews ==> output == old(output)
      ensures twoViews ==> forall d: Slot :: d in output <==>
                d in old(output) || exists q: Slot :: Reached(old(State()), q) && FirstDependent(old(State()), q, d)
    {
      hide Inv, Same, Reached, FirstDependent, Walked, WalkEnds;
      InfoShape(State());
      GrownSelf(State());
      WalkStart(State());
      if !twoViews {
        return;
      }
      ghost var b := State();
      ghost var walked: set<Slot> := {};
      var done: set<Slot> := {};
      var going := true;
      while going
        invariant Valid() && Grown(b, State()) && queue0.contents == b.base && dispOrder == b.order
            && nextDispnum == b.nextOrder
        invariant Walked(b, done, output)
        invariant !going ==> WalkEnds(b, done)
        decreases Members(b.base) - done, going
      {
        var front := LeastRanked(done);
        if front < 0 {
          WalkedAll(b, done);
          going := false;
        } else {
          var dep := FirstFollowing(front);
          FollowsGrown(b, State(), front);
          if dep < 0 {
            WalkStops(b, done, front);
            going := false;
          } else {
            WalkOn(b, done, output, front, dep);
            done := done + {front};
            FirstFollows(State(), front, dep);
            if dep in output {
              assert output + {dep} == output;
            } else {
              EnqueueInv(State(), dep, false);
              EnqueueGrown(b, State(), dep, false);
              output := output + {dep};
              queue1.Push(dep);
            }
          }
        }
      }
      WalkDone(b, done, output);
    }

    // The queued base view of lowest rank that is not done.
    method LeastRanked(done: set<Slot>) returns (front: int)
      requires Valid()
      ensures front < 0 ==> forall q | q in queue0.contents :: q in done
      ensures front >= 0 ==> front in queue0.contents && front !in done
      ensures front >= 0 ==> forall q | q in queue0.contents && q !in done :: dispOrder[front] <= dispOrder[q]
    {
      front := -1;
      var i := 0;
      while i < QUEUE_SIZE && queue0.entries[i] >= 0
        invariant i <= |queue0.contents|
        invariant front < 0 ==> forall q | q in queue0.contents[..i] :: q in done
        invariant front >= 0 ==> front in queue0.contents && front !in done
        invariant front >= 0 ==> forall q | q in queue0.contents[..i] && q !in done :: dispOrder[front] <= dispOrder[q]
      {
        var q := queue0.entries[i];
        if q !in done && (front < 0 || dispOrder[q] < dispOrder[front]) {
          front := q;
        }
        i := i + 1;
      }
      assert queue0.contents[..i] == queue0.contents;
    }

    // The first dependent view of an access unit in decoding order.
    method FirstFollowing(q: Slot) returns (dep: int)
      requires |info| == MAX_FRAMES
      ensures dep < 0 ==> forall d: Slot :: !Follows(State(), q, d)
      ensures dep >= 0 ==> dep < MAX_FRAMES && FirstDependent(State(), q, dep)
    {
      hide Same;
      dep := -1;
      for d := 0 to MAX_FRAMES
        invariant -1 <= dep < d
        invariant dep < 0 ==> forall e: Slot | e < d :: !Follows(State(), q, e)
        invariant dep >= 0 ==> Follows(State(), q, dep)
        invariant dep >= 0 ==> forall e: Slot | e < d && Follows(State(), q, e) :: info[dep].frameId <= info[e].frameId
      {
        if d in toGet && d in nonBase && Same(info, q, d) && (dep < 0 || info[d].frameId < info[dep].frameId) {
          dep := d;
        }
      }
    }

    // The waiting base pictures that display before a picture order count.
    method CountLower(poc: int, nonBaseView: bool) returns (n: nat)
      requires |info| == MAX_FRAMES
      ensures n == Card(Earlier(State(), poc, nonBaseView))
      ensures !nonBaseView ==> n == Card(Lower(State(), poc))
    {
      hide Card;
      n := 0;
      CardEmpty<Slot>(set s | s in Earlier(State(), poc, nonBaseView) && s < 0);
      assert (set s | s in Earlier(State(), poc, nonBaseView) && s < 0) == {};
      for i := 0 to MAX_FRAMES
        invariant n == Card<Slot>(set s | s in Earlier(State(), poc, nonBaseView) && s < i)
      {
        ghost var before: set<Slot> := set s | s in Earlier(State(), poc, nonBaseView) && s < i;
        ghost var now: set<Slot> := set s | s in Earlier(State(), poc, nonBaseView) && s < i + 1;
        if i in toGet && i !in output && (i in nonBase <==> nonBaseView) && info[i].poc < poc {
          n := n + 1;
          assert now - {i} == before;
          CardDrop<Slot>(now, i);
        } else {
          assert now == before;
        }
      }
      assert (set s | s in Earlier(State(), poc, nonBaseView) && s < MAX_FRAMES) == Earlier(State(), poc, nonBaseView);
      assert !nonBaseView ==> Earlier(State(), poc, nonBaseView) == Lower(State(), poc);
    }

    // One picture of a view is bumped, if there is one.
    method BumpOne(nonBaseView: bool, ghost poc: int)
      requires Valid()
      modifies this`output, this`dispOrder, this`nextDispnum, queue0, queue0.entries, queue1, queue1.entries
      ensures Valid() && |info| == |dispOrder| == MAX_FRAMES
      ensures Grown(old(State()), State()) && OneLess(old(State()), State(), poc, nonBaseView)
      ensures Bumped(old(State()), State(), nonBaseView)
    {
      hide Inv, Grown, Bumpable, OneLess, Before;
      ghost var b := State();
      InfoShape(b);
      GrownSelf(b);
      var bumped, pic := Bump(nonBaseView, {});
      if bumped {
        BumpableWaits(b, pic, nonBaseView);
        assert FirstToBump(b, pic, nonBaseView) && pic in State().output;
        EnqueueGrown(b, b, pic, true);
        BumpedLess(b, pic, poc, nonBaseView);
      } else {
        NoneLess(b, poc, nonBaseView);
      }
    }

    // Waiting pictures are bumped while those and the references exceed the buffer, as far as is allowed.
    method MakeRoom(references: set<Slot>, isRef: bool, maxRefs: nat, maxBuffering: nat, nonBaseView: bool)
          returns (full: bool, ghost limit: nat, ghost S: seq<Buffer>)
      requires Valid() && 0 <= currPic < MAX_FRAMES && Unseen(State(), currPic)
      modifies this`output, this`dispOrder, this`nextDispnum, queue0, queue0.entries, queue1, queue1.entries
      ensures Valid() && Grown(old(State()), State()) && Unseen(State(), currPic)
      ensures if full then !isRef && !nonBaseView ==> Lower(State(), info[currPic].poc) == {}
              else Popcount(references, toGet - output) <= maxBuffering
      ensures Card(Waiting(State(), false)) <= Card(Waiting(old(State()), false))
      ensures limit == if isRef then maxRefs else Card(Earlier(old(State()), info[currPic].poc, nonBaseView))
      ensures |S| > 0 && S[0] == old(State()) && S[|S| - 1] == State()
      ensures Steps(S, references, maxBuffering, nonBaseView)
      ensures |S| - 1 <= limit
      ensures full ==> |S| - 1 == limit && Popcount(references, toGet - output) > maxBuffering
    {
      hide Inv, Grown, Card, Popcount, Lower, Waiting, OneLess, Bumped, Steps, Earlier;
      InfoShape(State());
      ghost var b := State();
      ghost var poc := info[currPic].poc;
      GrownSelf(b);
      var maxBump := maxRefs;
      if !isRef {
        maxBump := CountLower(info[currPic].poc, nonBaseView);
      }
      limit, S := maxBump, [b];
      StepsStart(b, references, maxBuffering, nonBaseView);
      full := false;
      while !full && Popcount(references, toGet - output) > maxBuffering
        invariant Valid() && Grown(b, State()) && |dispOrder| == MAX_FRAMES && currPic !in output
        invariant toGet == b.toGet && info == b.info && nonBase == b.nonBase && prevFrameId == b.lastId
            && delivered == b.delivered
        invariant !isRef && !nonBaseView ==> Card(Lower(State(), poc)) <= if full then 0 else maxBump
        invariant Card(Waiting(State(), false)) <= Card(Waiting(b, false))
        invariant |S| > 0 && S[0] == b && S[|S| - 1] == State() && Steps(S, references, maxBuffering, nonBaseView)
        invariant |S| - 1 + maxBump == limit
        invariant full ==> maxBump == 0 && Popcount(references, toGet - output) > maxBuffering
        decreases maxBump, !full
      {
        if maxBump == 0 {
          full := true;
        } else {
          maxBump := maxBump - 1;
          ghost var c := State();
          BumpOne(nonBaseView, poc);
          StepsOn(S, State(), references, maxBuffering, nonBaseView);
          S := S + [State()];
          GrownOn(b, c, State());
          GrownSame(c, State());
          LessMeans(c, State(), poc, nonBaseView);
        }
      }
      if full && !isRef && !nonBaseView {
        CardEmpty(Lower(State(), poc));
      }
    }

    // The current picture waits or is output at once.
    method Admit(immediate: bool, maxReorder: nat, nonBaseView: bool)
      requires Valid() && 0 <= currPic < MAX_FRAMES && Unseen(State(), currPic) && (currPic in nonBase <==> nonBaseView)
      modifies this`toGet, this`output, this`dispOrder, this`nextDispnum, queue0, queue0.entries, queue1, queue1.entries
      ensures Valid() && Grown(Insert(old(State()), currPic), State())
      ensures immediate ==> currPic in output && dispOrder[currPic] == nextDispnum - 1
      ensures immediate ==> Lower(State(), info[currPic].poc) == Lower(old(State()), info[currPic].poc)
      ensures !nonBaseView && Card(Waiting(old(State()), false)) <= maxReorder ==>
          Card(Waiting(State(), false)) <= maxReorder
      ensures |old(dispOrder)| == MAX_FRAMES
      ensures var inserted := Insert(old(State()), currPic);
              if immediate then State() == Enqueue(inserted, currPic, true)
              else if Card(Waiting(inserted, nonBaseView)) > maxReorder then Bumped(inserted, State(), nonBaseView)
              else State() == inserted
    {
      hide Inv, Grown, Card, Lower, Waiting, OneLess, Bumped;
      InfoShape(State());
      ghost var c := State();
      ghost var poc := info[currPic].poc;
      InsertInv(c, currPic);
      WaitingInsert(c, currPic, nonBaseView);
      toGet := toGet + {currPic};
      ghost var d := State();
      GrownSelf(d);
      if immediate {
        InsertedAtOnce(c, currPic, poc);
        EnqueueGrown(d, d, currPic, true);
        Queued(currPic, true);
      } else {
        var waiting := set s | s in toGet && s !in output && (s in nonBase <==> nonBaseView);
        WaitingMeans(d, nonBaseView);
        assert waiting == Waiting(d, nonBaseView);
        if Card<Slot>(waiting) > maxReorder {
          BumpOne(nonBaseView, poc);
          LessMeans(d, State(), poc, nonBaseView);
        }
      }
    }

    /**
     * The pictures that workers or concealment completed. The current picture is completed by its slices alone,
     * which are handed to workers after it was added.
     */
    method Completed(pics: set<Slot>)
      requires Valid() && Current() && (currPic in pics ==> currPic in toGet)
      modifies this`complete
      ensures Valid() && Current() && complete == old(complete) + pics
    {
      hide Inv, Tracked;
      CompletedTracked(State(), complete, currPic, pics);
      complete := complete + pics;
    }

    /**
     * Room for the current picture (C.4.5): waiting pictures are bumped while those and the references exceed
     * the buffer. If it is full still, the current picture is output at once, and if it is no reference every
     * picture displayed before it was bumped. Otherwise one picture is bumped if too many wait.
     */
    method AddPicture(references: set<Slot>, isRef: bool, maxRefs: nat, maxBuffering: nat, maxReorder: nat,
          nonBaseView: bool)
      returns (immediate: bool, ghost limit: nat, ghost S: seq<Buffer>)
      requires Valid() && Current() && currPic >= 0 && currPic !in toGet && currPic !in complete
      requires currPic in nonBase <==> nonBaseView
      modifies this`toGet, this`output, this`dispOrder, this`nextDispnum, queue0, queue0.entries, queue1, queue1.entries
      ensures Valid() && Current() && Grown(Insert(old(State()), currPic), State())
      ensures info[currPic].frameId !in delivered
      ensures immediate ==> currPic in output && dispOrder[currPic] == nextDispnum - 1
      ensures immediate && !isRef && !nonBaseView ==> Lower(State(), info[currPic].poc) == {}
      ensures !immediate ==> Popcount(references, toGet - output - {currPic}) <= maxBuffering
      ensures !nonBaseView && Card(Waiting(old(State()), false)) <= maxReorder ==>
          Card(Waiting(State(), false)) <= maxReorder
      ensures limit == if isRef then maxRefs else Card(Earlier(old(State()), info[currPic].poc, nonBaseView))
      ensures |S| > 0 && S[0] == old(State())
      ensures Admitted(S, State(), currPic, references, limit, maxBuffering, maxReorder, nonBaseView)
      ensures var last := S[|S| - 1];
              immediate <==> Popcount(references, last.toGet - last.output) > maxBuffering
    {
      hide Inv, Grown, Card, Popcount, Lower, Waiting, Bumped, Steps, Earlier;
      ghost var b := State();
      immediate, limit, S := MakeRoom(references, isRef, maxRefs, maxBuffering, nonBaseView);
      ghost var c := State();
      GrownSame(b, c);
      GrownInsert(b, c, currPic);
      Admit(immediate, maxReorder, nonBaseView);
      GrownSame(Insert(c, currPic), State());
      GrownOn(Insert(b, currPic), Insert(c, currPic), State());
      if !immediate {
        PopcountGrows(references, toGet - output - {currPic}, c.toGet - c.output);
      }
    }

    /**
     * What each slice does, whether it is the first of its picture or not: the picture is added unless it waits.
     * This is the first time exactly if it is not complete (`AddedTwice`).
     */
    method AddSlice(references: set<Slot>, isRef: bool, maxRefs: nat, maxBuffering: nat, maxReorder: nat,
          nonBaseView: bool)
      returns (added: bool, ghost limit: nat, ghost S: seq<Buffer>)
      requires Valid() && Current() && currPic >= 0 && (currPic in nonBase <==> nonBaseView)
      requires currPic in toGet || currPic !in complete
      modifies this`toGet, this`output, this`dispOrder, this`nextDispnum, queue0, queue0.entries, queue1, queue1.entries
      ensures Valid() && Current() && toGet == old(toGet) + {currPic} && (added <==> currPic !in old(toGet))
      ensures Grown(Insert(old(State()), currPic), State()) && (!added ==> State() == old(State()))
      ensures limit == if !added then 0 else if isRef then maxRefs
                       else Card(Earlier(old(State()), info[currPic].poc, nonBaseView))
      ensures |S| > 0 && S[0] == old(State())
      ensures added ==> Admitted(S, State(), currPic, references, limit, maxBuffering, maxReorder, nonBaseView)
      ensures info[currPic].frameId !in delivered
    {
      hide Inv, Grown, Tracked, Admitted, Earlier;
      ghost var b := State();
      limit, S := 0, [b];
      OnceShape(b);
      added := currPic !in toGet;
      if added {
        var immediate;
        immediate, limit, S := AddPicture(references, isRef, maxRefs, maxBuffering, maxReorder, nonBaseView);
        GrownSame(Insert(b, currPic), State());
      } else {
        assert Insert(b, currPic) == b;
        GrownSelf(b);
        ToGetUnseen(b, currPic);
      }
    }

    // --- flushing ---

    // Every waiting picture that may be bumped is queued, base views in display order.
    method BumpWaiting()
      requires Valid()
      modifies this`output, this`dispOrder, this`nextDispnum, queue0, queue0.entries, queue1, queue1.entries
      ensures Valid() && |info| == MAX_FRAMES && Grown(old(State()), State()) && DisplayOrder(old(State()), State())
      ensures forall s | s in toGet && s !in output :: s in nonBase
    {
      hide Inv, Members, Grown, DisplayOrder, HasBase, Before;
      ghost var b := State();
      InfoShape(b);
      GrownSelf(b);
      DisplayStart(b);
      var more := true;
      while more
        invariant Valid() && Grown(b, State()) && toGet == b.toGet && |info| == |dispOrder| == MAX_FRAMES
        invariant info == b.info && nonBase == b.nonBase && DisplayOrder(b, State())
        invariant !more ==> forall s: Slot :: !Bumpable(State(), s, false, {})
        decreases toGet - output, more
      {
        ghost var c := State();
        var bumped0, pic0 := Bump(false, {});
        if bumped0 {
          BumpedDisplay(b, c, pic0);
          BumpableWaits(c, pic0, false);
        }
        ghost var d := State();
        var bumped1, pic1 := Bump(true, {});
        if bumped1 {
          BumpedDependent(b, d, pic1);
          BumpableWaits(d, pic1, true);
        }
        more := bumped0 || bumped1;
      }
      forall s | s in toGet - output
        ensures s in nonBase
      {
        assert !Bumpable(State(), s, false, {});
      }
    }

    // The dependent views left, whose base views are missing, go to the end of their queue.
    method QueueRest(queued: set<Slot>)
      requires Valid() && |info| == MAX_FRAMES && queued == toGet * output && forall s | s in toGet
          && s !in output :: s in nonBase
      modifies this`output, queue1, queue1.entries
      ensures Valid() && |info| == MAX_FRAMES && Grown(old(State()), State()) && toGet <= output
      ensures queue0.contents == old(queue0.contents) && dispOrder == old(dispOrder) && nextDispnum == old(nextDispnum)
      ensures forall s | s in output && s !in old(output) :: s in nonBase
    {
      hide Inv, Grown;
      ghost var b := State();
      GrownSelf(b);
      for i := 0 to MAX_FRAMES
        invariant Valid() && Grown(b, State()) && queue0.contents == b.base
        invariant forall s | s in toGet && s !in output :: s >= i && s in nonBase
        invariant forall s | s in output && s !in b.output :: s < i && s in nonBase
        invariant b.output <= output
      {
        ghost var c := State();
        if i in toGet && i !in queued {
          EnqueueLastInv(c, i);
          EnqueueLastGrown(b, c, i);
          queue1.Append(i);
          output := output + {i};
        }
      }
    }

    /**
     * bump_all_frames: every picture to get is queued and complete, the waiting base views in display order,
     * and none falls out of a queue.
     */
    method BumpAll() returns (again: bool)
      requires Valid()
      modifies this`output, this`dispOrder, this`nextDispnum, this`complete, this`busy, this`currPic,
               queue0, queue0.entries, queue1, queue1.entries
      ensures Valid() && |info| == MAX_FRAMES && Grown(old(State()), State()) && DisplayOrder(old(State()), State())
      ensures toGet <= output && toGet <= complete && busy == {} && currPic == -1 && Current()
      ensures Members(queue0.contents) == toGet - nonBase && Members(queue1.contents) == toGet * nonBase
      ensures again <==> toGet + output != {}
    {
      hide Inv, Members, Grown, DisplayOrder, HasBase, Before;
      ghost var b := State();
      BumpWaiting();
      ghost var c := State();
      GrownSame(b, c);
      var queued0 := queue0.Gather();
      var queued1 := queue1.Gather();
      MembersQueued(c);
      QueueRest(queued0 + queued1);
      GrownOn(b, c, State());
      GrownSame(c, State());
      DisplayKept(b, c, State());
      MembersQueued(State());
      currPic := -1;
      busy := {}; // waited for
      complete := complete + toGet; // concealed
      again := toGet + output != {};
    }

    /**
     * The fullness gate of decode_nal. It closes exactly if a queue is full, which then holds every slot, so
     * behind an open gate a flush has room for all waiting pictures.
     */
    method Gate() returns (open: bool)
      requires Valid()
      ensures open <==> |queue0.contents| < QUEUE_SIZE && |queue1.contents| < QUEUE_SIZE
      ensures open ==> |queue0.contents| + Card(Waiting(State(), false)) <= QUEUE_SIZE
      ensures open ==> |queue1.contents| + Card(Waiting(State(), true)) <= QUEUE_SIZE
      ensures !open ==> forall s: Slot :: s in toGet && s in output
    {
      hide Inv, Card, Waiting;
      QueueFits(State(), false);
      QueueFits(State(), true);
      var queued0 := queue0.Length();
      var queued1 := queue1.Length();
      var base := set s | s in toGet && s !in output && s !in nonBase;
      var dependent := set s | s in toGet && s !in output && s in nonBase;
      WaitingMeans(State(), false);
      WaitingMeans(State(), true);
      assert base == Waiting(State(), false) && dependent == Waiting(State(), true);
      var pending0 := if Card<Slot>(base) == 0 then 1 else Card<Slot>(base);
      var pending1 := if Card<Slot>(dependent) == 0 then 1 else Card<Slot>(dependent);
      open := queued0 + pending0 <= QUEUE_SIZE && queued1 + pending1 <= QUEUE_SIZE;
    }

    // All that may be bumped of a view.
    method BumpView(nonBaseView: bool)
      requires Valid()
      modifies this`output, this`dispOrder, this`nextDispnum, queue0, queue0.entries, queue1, queue1.entries
      ensures Valid() && |info| == MAX_FRAMES && Grown(old(State()), State())
      ensures forall s: Slot :: !Bumpable(State(), s, nonBaseView, {})
      ensures nonBaseView ==> forall s | s in output && s !in old(output) :: s in nonBase
    {
      hide Inv, Members, Grown, HasBase, Before;
      ghost var b := State();
      InfoShape(b);
      GrownSelf(b);
      var more := true;
      while more
        invariant Valid() && Grown(b, State()) && |info| == |dispOrder| == MAX_FRAMES
        invariant nonBaseView ==> forall s | s in output && s !in b.output :: s in nonBase
        invariant !more ==> forall s: Slot :: !Bumpable(State(), s, nonBaseView, {})
        decreases toGet - output, more
      {
        ghost var c := State();
        var length := 0;
        if nonBaseView {
          length := queue1.Length();
        } else {
          length := queue0.Length();
        }
        if length < QUEUE_SIZE {
          var bumped, pic := Bump(nonBaseView, {});
          if bumped {
            BumpableWaits(c, pic, nonBaseView);
            EnqueueGrown(b, c, pic, true);
          }
          more := bumped;
        } else {
          FullView(c, nonBaseView);
          more := false;
        }
      }
    }

    /**
     * unblock_output: all base views and the dependent views with a base view are queued, and the dependent
     * views without one are dropped, but for the picture being parsed.
     */
    method Unblock()
      requires Valid()
      modifies this`toGet, this`output, this`dispOrder, this`nextDispnum, this`flushing,
               queue0, queue0.entries, queue1, queue1.entries
      ensures Valid() && flushing && toGet <= old(toGet) && |info| == MAX_FRAMES
      ensures forall s | s in toGet && s !in output :: s == currPic
      ensures forall s | s in old(toGet) && s !in toGet ::
                s !in output && s in nonBase && s != currPic && !HasBase(info, toGet - nonBase, s)
      ensures old(Current()) ==> Current()
    {
      hide Inv, Members, Grown, HasBase, Tracked;
      ghost var b := State();
      BumpView(false);
      ghost var c := State();
      GrownSame(b, c);
      BumpView(true);
      GrownSame(c, State());
      ghost var e := State();
      BasesQueued(c, e);
      var bases := toGet - nonBase;
      for d := 0 to MAX_FRAMES
        invariant Valid() && |info| == MAX_FRAMES && info == b.info && nonBase == b.nonBase && toGet <= b.toGet
            && output == e.output
        invariant toGet - nonBase == bases
        invariant forall s | s in toGet && s !in output :: s == currPic || s >= d
        invariant forall s | s in b.toGet && s !in toGet ::
                    s !in output && s in nonBase && s != currPic && !HasBase(info, bases, s)
      {
        if d in toGet && d !in output && d in nonBase && d != currPic {
          var has := AnyBase(bases, d);
          if !has {
            DropWaitingInv(State(), d);
            toGet := toGet - {d};
          }
        }
      }
      flushing := true;
      if old(Current()) {
        GrownOn(b, c, e);
        GrownNew(b, e);
        DroppedTracked(b, State(), complete, currPic);
      }
    }

    // --- the caller ---

    /** return_frame: the caller gives back frames it holds. */
    method ReturnFrame(frames: set<Slot>)
      requires Valid() && frames <= held
      modifies this`output, this`held
      ensures Valid() && State() == Return(old(State()), frames) && (old(Current()) ==> Current())
      ensures held == old(held) - frames && output == old(output) - frames && toGet == old(toGet)
    {
      hide Inv;
      ReturnInv(State(), frames);
      output := output - frames;
      held := held - frames;
    }

    // The first slot that is not used.
    method FreeSlot(used: set<Slot>) returns (i: nat)
      ensures i <= MAX_FRAMES && forall s: Slot | s < i :: s in used
      ensures i < MAX_FRAMES ==> i !in used
    {
      i := 0;
      while i < MAX_FRAMES && i in used
        invariant i <= MAX_FRAMES && forall s: Slot | s < i :: s in used
      {
        i := i + 1;
      }
    }

    // The dependent views that wait for their second base view learn about it.
    method TellBase()
      requires |info| == MAX_FRAMES
      modifies this`info
      ensures info == Told(old(info), nonBase, lastBaseId)
    {
      for d := 0 to MAX_FRAMES
        invariant |info| == MAX_FRAMES && info[..d] == Told(old(info), nonBase, lastBaseId)[..d]
            && info[d..] == old(info)[d..]
      {
        ghost var was := info;
        assert info[d] == old(info)[d];
        if d in nonBase && info[d].auBase1 == 0 {
          info := info[d := info[d].(auBase1 := lastBaseId)];
        }
        assert info[..d] == was[..d] && info[d + 1..] == was[d..][1..];
      }
    }

    // A new picture takes a slot.
    method Occupy(i: Slot, frameNum: int, poc: int, nonBaseView: bool)
      requires |info| == MAX_FRAMES
      modifies this`info, this`nonBase, this`prevFrameId, this`lastBaseId
      ensures State() == Allocate(old(State()), i, frameNum, poc, nonBaseView)
    {
      hide Told;
      prevFrameId := prevFrameId + 1;
      if nonBaseView {
        nonBase := nonBase + {i};
        info := info[i := Picture(frameNum, poc, prevFrameId, lastBaseId, 0)];
      } else {
        nonBase := nonBase - {i};
        lastBaseId := prevFrameId + 1;
        var was := info[i];
        TellBase();
        info := info[i := Picture(frameNum, poc, prevFrameId, was.auBase0, was.auBase1)];
      }
    }

    /** The slot of a new picture: neither referenced, waiting, queued, held nor used by tasks in flight. */
    method NewPicture(references: set<Slot>, inUse: set<Slot>, frameNum: int, poc: int, nonBaseView: bool)
          returns (ok: bool)
      requires Valid()
      modifies this`info, this`nonBase, this`prevFrameId, this`lastBaseId, this`currPic, this`complete
      ensures Valid() && (ok || old(Current()) ==> Current())
      ensures ok <==> exists s: Slot :: s !in references + toGet + output + inUse
      ensures !ok ==> State() == old(State())
      ensures ok ==> 0 <= currPic < MAX_FRAMES && currPic !in references + toGet + output + inUse + held
      ensures ok ==> State() == Allocate(old(State()), currPic, frameNum, poc, nonBaseView) && Unseen(State(), currPic)
      ensures ok ==> prevFrameId == old(prevFrameId) + 1 && nonBase - {currPic} == old(nonBase) - {currPic}
      ensures ok ==> |info| == MAX_FRAMES && (currPic in nonBase <==> nonBaseView)
      ensures ok ==> info[currPic].frameNum == frameNum && info[currPic].poc == poc
      ensures ok ==> info[currPic].frameId == prevFrameId
      ensures complete == if ok then old(complete) - {currPic} else old(complete)
    {
      hide Inv, Allocate, Tracked;
      OnceShape(State());
      var i := FreeSlot(references + toGet + output + inUse);
      ok := i < MAX_FRAMES;
      if ok {
        AllocateInv(State(), i, frameNum, poc, nonBaseView);
        AllocateTracked(State(), i, frameNum, poc, nonBaseView, complete - {i});
        AllocateMeans(State(), i, frameNum, poc, nonBaseView);
        Occupy(i, frameNum, poc, nonBaseView);
        currPic := i;
        complete := complete - {i};
      }
    }

    // --- get_frame ---

    // The first queued base view in display order among the ones that may be shown, and among all.
    method Front() returns (idx0: int, lowest: int)
      requires Valid()
      ensures -1 <= idx0 < |queue0.contents|
      ensures idx0 < 0 ==> forall q | q in queue0.contents :: !Ready(q)
      ensures idx0 >= 0 ==> Ready(queue0.contents[idx0]) && forall q | q in queue0.contents && Ready(q) ::
                              dispOrder[queue0.contents[idx0]] <= dispOrder[q]
      ensures queue0.contents != [] ==> lowest in queue0.contents
      ensures queue0.contents != [] ==> forall q | q in queue0.contents :: dispOrder[lowest] <= dispOrder[q]
    {
      idx0, lowest := -1, -1;
      var i := 0;
      while i < QUEUE_SIZE && queue0.entries[i] >= 0
        invariant i <= |queue0.contents| && -1 <= idx0 < i
        invariant idx0 < 0 ==> forall q | q in queue0.contents[..i] :: !Ready(q)
        invariant idx0 >= 0 ==> Ready(queue0.contents[idx0]) && forall q | q in queue0.contents[..i] && Ready(q) ::
                                  dispOrder[queue0.contents[idx0]] <= dispOrder[q]
        invariant if i == 0 then lowest == -1 else 0 <= lowest < MAX_FRAMES && lowest in queue0.contents
        invariant i > 0 ==> forall q | q in queue0.contents[..i] :: dispOrder[lowest] <= dispOrder[q]
      {
        var q := queue0.entries[i];
        assert q == queue0.contents[i] && queue0.contents[..i + 1] == queue0.contents[..i] + [q];
        if lowest < 0 || dispOrder[q] < dispOrder[lowest] {
          lowest := q;
        }
        if Ready(q) && (idx0 < 0 || dispOrder[q] < dispOrder[queue0.entries[idx0]]) {
          idx0 := i;
        }
        i := i + 1;
      }
      assert queue0.contents[..i] == queue0.contents;
    }

    // A picture that may be shown: a complete one, or while flushing any but the one being parsed.
    predicate Ready(q: Slot)
      reads this`complete, this`flushing, this`currPic
    {
      q in complete || (flushing && q != currPic)
    }

    // The first complete one among the queued dependent views of an access unit.
    method PairQueued(pic0: Slot) returns (idx1: int)
      requires Valid() && |info| == MAX_FRAMES
      ensures -1 <= idx1 < |queue1.contents|
      ensures idx1 >= 0 ==> queue1.contents[idx1] in complete && Same(info, pic0, queue1.contents[idx1])
      ensures idx1 < 0 ==> forall d | d in queue1.contents && Same(info, pic0, d) :: d !in complete
    {
      hide Same;
      idx1 := -1;
      var i := 0;
      while i < QUEUE_SIZE && queue1.entries[i] >= 0 && idx1 < 0
        invariant i <= |queue1.contents| && -1 <= idx1 < i
        invariant idx1 >= 0 ==> queue1.contents[idx1] in complete && Same(info, pic0, queue1.contents[idx1])
        invariant idx1 < 0 ==> forall d | d in queue1.contents[..i] && Same(info, pic0, d) :: d !in complete
        decreases QUEUE_SIZE - i
      {
        var d := queue1.entries[i];
        assert d == queue1.contents[i] && queue1.contents[..i + 1] == queue1.contents[..i] + [d];
        if d in complete && Same(info, pic0, d) {
          idx1 := i;
        }
        i := i + 1;
      }
      if idx1 < 0 {
        assert queue1.contents[..i] == queue1.contents;
      }
    }

    // The first one in decoding order among the waiting dependent views of an access unit.
    method PairWaiting(pic0: Slot) returns (dep: int)
      requires |info| == MAX_FRAMES
      ensures -1 <= dep < MAX_FRAMES
      ensures dep >= 0 ==> FirstWaiting(State(), pic0, dep)
      ensures dep < 0 ==> forall d: Slot | Follows(State(), pic0, d) :: d in output
    {
      hide Same;
      dep := -1;
      for d := 0 to MAX_FRAMES
        invariant -1 <= dep < d
        invariant dep >= 0 ==> Follows(State(), pic0, dep) && dep !in output
        invariant dep >= 0 ==> forall e: Slot | e < d && Follows(State(), pic0, e) && e !in output ::
                    info[dep].frameId <= info[e].frameId
        invariant dep < 0 ==> forall e: Slot | e < d && Follows(State(), pic0, e) :: e in output
      {
        if d in toGet && d !in output && d in nonBase && Same(info, pic0, d)
            && (dep < 0 || info[d].frameId < info[dep].frameId) {
          dep := d;
        }
      }
    }

    // The complete dependent view of a base view in its queue, which it enters now if it waited only.
    method Pair(pic0: Slot) returns (idx1: int)
      requires Valid() && |info| == MAX_FRAMES
      modifies this`output, queue1, queue1.entries
      ensures Valid() && |info| == MAX_FRAMES && Grown(old(State()), State()) && queue0.contents == old(queue0.contents)
      ensures dispOrder == old(dispOrder) && nextDispnum == old(nextDispnum)
      ensures -1 <= idx1 < |queue1.contents|
      ensures output == if idx1 >= 0 then old(output) + {queue1.contents[idx1]} else old(output)
      ensures idx1 >= 0 ==> queue1.contents[idx1] in complete && Same(info, pic0, queue1.contents[idx1])
      ensures idx1 < 0 ==> State() == old(State())
      ensures idx1 >= 0 <==> Paired(old(State()), complete, pic0)
      ensures idx1 < 0 && (exists d: Slot :: Follows(State(), pic0, d)) ==>
          exists d: Slot :: Follows(State(), pic0, d) && d !in complete
    {
      hide Inv, Same, Grown;
      ghost var b := State();
      GrownSelf(b);
      idx1 := PairQueued(pic0);
      if idx1 >= 0 {
        QueuedOutput(b, idx1);
        InDependentMeans(b, queue1.contents[idx1]);
      } else {
        var d := PairWaiting(pic0);
        forall e: Slot | Follows(b, pic0, e) && e in output
          ensures e !in complete
        {
          InQueue1(b, e);
        }
        if d >= 0 {
          FirstUnique(b, pic0, d);
        }
        if d >= 0 && d in complete {
          EnqueueInv(b, d, false);
          EnqueueGrown(b, b, d, false);
          output := output + {d};
          queue1.Push(d);
          idx1 := 0;
        } else if d < 0 {
          forall e: Slot | Follows(b, pic0, e)
            ensures e !in complete
          {
            InQueue1(b, e);
          }
        }
      }
    }

    // What lets the queued base views come out by rank: while not flushing, each incomplete one is being
    // parsed or written.
    ghost predicate Settled()
      reads this, queue0
    {
      forall q | q in queue0.contents :: q in complete || (!flushing && (q == currPic || q in busy))
    }

    // The first base view that may be shown, held back for one ranking before it that is still being decoded.
    method Choose() returns (idx0: int)
      requires Valid() && |dispOrder| == MAX_FRAMES
      ensures -1 <= idx0 < |queue0.contents|
      ensures idx0 >= 0 ==> Ready(queue0.contents[idx0])
      ensures idx0 >= 0 && Settled() ==> IsFirst(State(), idx0)
      ensures idx0 >= 0 ==> NextShown(State(), complete, busy, flushing, currPic, queue0.contents[idx0])
      ensures idx0 < 0 ==> forall q: Slot :: !NextShown(State(), complete, busy, flushing, currPic, q)
      ensures flushing && queue0.contents != [] && (forall q | q in queue0.contents :: q in complete) ==> idx0 >= 0
    {
      hide Dpb.Queued, Once;
      var lowest;
      idx0, lowest := Front();
      if idx0 >= 0 {
        assert queue0.contents[idx0] in queue0.contents;
        assert Lowest(State(), lowest);
        if lowest != queue0.entries[idx0] && !flushing && (lowest == currPic || lowest in busy) {
          idx0 := -1;
        }
      }
    }

    // Whether a base view comes out alone: no dependent view of it is left, and the caller waits.
    method Alone(pic0: Slot) returns (force: bool)
      requires Valid() && |info| == MAX_FRAMES
      ensures force <==> Dpb.Alone(State(), flushing, pic0)
    {
      hide Inv, Same, Card;
      var d := FirstFollowing(pic0);
      force := false;
      if d < 0 {
        var queued0 := queue0.Length();
        var queued1 := queue1.Length();
        var bumpable := Card(toGet - output);
        force := flushing || queued0 + queued1 + (if bumpable == 0 then 1 else bumpable) > QUEUE_SIZE;
      }
    }

    // A picture leaves the ones to get, and stays marked for output if it is borrowed.
    method TakeOut(pic: Slot, borrow: bool)
      requires |info| == MAX_FRAMES
      modifies this`toGet, this`output, this`held, this`delivered
      ensures toGet == old(toGet) - {pic} && delivered == old(delivered) + {info[pic].frameId}
      ensures output == if borrow then old(output) else old(output) - {pic}
      ensures held == if borrow then old(held) + {pic} else old(held)
    {
      toGet := toGet - {pic};
      delivered := delivered + {info[pic].frameId};
      if borrow {
        held := held + {pic};
      } else {
        output := output - {pic};
      }
    }

    // An entry of the base queue goes out.
    method ShowBase(i: nat, borrow: bool) returns (pic: int)
      requires Valid() && |info| == |dispOrder| == MAX_FRAMES && i < |queue0.contents|
      modifies this`toGet, this`output, this`held, this`delivered, this`shown, this`inOrder, queue0, queue0.entries
      ensures Valid() && pic == old(queue0.contents)[i] && State() == DeliverBase(old(State()), i, borrow)
    {
      hide Inv, IsFirst, Without;
      DeliverBaseInv(State(), i, borrow);
      pic := queue0.entries[i];
      shown, inOrder := shown + [dispOrder[pic]], inOrder && IsFirst(State(), i);
      TakeOut(pic, borrow);
      queue0.Dequeue(i);
    }

    // An entry of the other queue goes out with its base view.
    method ShowDependent(i: nat, borrow: bool) returns (pic: int)
      requires Valid() && |info| == MAX_FRAMES && i < |queue1.contents|
      modifies this`toGet, this`output, this`held, this`delivered, queue1, queue1.entries
      ensures Valid() && pic == old(queue1.contents)[i] && State() == DeliverDependent(old(State()), i, borrow)
    {
      hide Inv, Without;
      DeliverDependentInv(State(), i, borrow);
      pic := queue1.entries[i];
      TakeOut(pic, borrow);
      queue1.Dequeue(i);
    }

    // Queued dependent views without a base view are dropped, unless they are still being parsed or written.
    method DropOrphans()
      requires Valid() && |info| == MAX_FRAMES
      modifies this`toGet, this`output, queue1, queue1.entries
      ensures Valid() && Shrunk(old(State()), State())
      ensures forall s | s in old(toGet) && s !in toGet :: Orphan(old(State()), busy, currPic, s)
      ensures forall d | d in queue1.contents :: !Orphan(old(State()), busy, currPic, d)
    {
      hide Inv, HasBase;
      ghost var b := State();
      ShrunkSelf(b);
      var bases := toGet + busy - nonBase;
      var i := 0;
      while i < QUEUE_SIZE && queue1.entries[i] >= 0
        invariant Valid() && Shrunk(b, State()) && i <= |queue1.contents|
        invariant forall s | s in b.toGet && s !in toGet :: Orphan(b, busy, currPic, s)
        invariant forall d | d in queue1.contents[..i] :: !Orphan(b, busy, currPic, d)
        decreases |queue1.contents| - i
      {
        var dep := queue1.entries[i];
        ghost var c := State();
        assert dep == queue1.contents[i] && queue1.contents[..i + 1] == queue1.contents[..i] + [dep];
        var has := AnyBase(bases, dep);
        if dep == currPic || dep in busy || has {
          i := i + 1;
        } else {
          DropQueuedInv(c, i);
          DropShrunk(b, c, i);
          queue1.Dequeue(i);
          toGet := toGet - {dep};
          output := output - {dep};
          assert queue1.contents[..i] == c.dependent[..i];
        }
      }
      assert queue1.contents[..i] == queue1.contents;
    }

    // The base view that goes out and the dependent view that goes with it, which enters its queue now if it waited.
    method Offer() returns (idx0: int, idx1: int)
      requires Valid() && |info| == |dispOrder| == MAX_FRAMES
      modifies this`output, queue1, queue1.entries
      ensures Valid() && |info| == |dispOrder| == MAX_FRAMES && Grown(old(State()), State())
      ensures queue0.contents == old(queue0.contents) && dispOrder == old(dispOrder)
      ensures -1 <= idx0 < |queue0.contents| && -1 <= idx1 < |queue1.contents| && (idx1 >= 0 ==> idx0 >= 0)
      ensures output == if idx1 >= 0 then old(output) + {queue1.contents[idx1]} else old(output)
      ensures idx1 >= 0 ==>
                queue1.contents[idx1] in complete && Same(info, queue0.contents[idx0], queue1.contents[idx1])
      ensures idx0 >= 0 ==> Ready(queue0.contents[idx0])
      ensures idx0 >= 0 ==>
                Leaves(old(State()), complete, busy, flushing, currPic, twoViews, queue0.contents[idx0])
      ensures idx0 < 0 ==> forall q: Slot :: !Leaves(old(State()), complete, busy, flushing, currPic, twoViews, q)
      ensures idx0 < 0 ==> State() == old(State())
      ensures idx0 >= 0 && twoViews && idx1 < 0 ==> Dpb.Alone(old(State()), flushing, queue0.contents[idx0])
      ensures idx0 >= 0 && old(Settled()) ==> IsFirst(old(State()), idx0)
      ensures flushing && queue0.contents != [] && (forall q | q in toGet :: q in complete) ==> idx0 >= 0
    {
      hide Inv, Same, Grown, IsFirst, NextShown, Paired, Dpb.Alone;
      ghost var b := State();
      GrownSelf(b);
      BaseToGet(b);
      NextUniqueAll(b, complete, busy, flushing, currPic);
      idx0 := Choose();
      idx1 := -1;
      if idx0 >= 0 && twoViews {
        idx1 := Pair(queue0.entries[idx0]);
        GrownSame(b, State());
        if idx1 < 0 {
          var force := Alone(queue0.entries[idx0]);
          AloneFlushing(b, queue0.contents[idx0]);
          if !force {
            idx0 := -1;
          }
        }
      }
    }

    // Hands out the chosen base view, with its dependent view or alone.
    method Serve(borrow: bool) returns (got: bool, pic0: int, pic1: int)
      requires Valid() && |info| == |dispOrder| == MAX_FRAMES
      modifies this`toGet, this`output, this`held, this`delivered, this`shown, this`inOrder,
               queue0, queue0.entries, queue1, queue1.entries
      ensures Valid() && (!got ==> State() == old(State()))
      ensures got ==> 0 <= pic0 < MAX_FRAMES && -1 <= pic1 < MAX_FRAMES
      ensures got ==> HandedOut(old(State()), State(), pic0, pic1, borrow)
      ensures got ==> old(Ready(pic0)) && (pic1 >= 0 ==> pic1 in complete)
      ensures got && twoViews && pic1 < 0 ==> Dpb.Alone(old(State()), flushing, pic0)
      ensures !got ==> forall q: Slot :: !Leaves(old(State()), complete, busy, flushing, currPic, twoViews, q)
      ensures got ==> Leaves(old(State()), complete, busy, flushing, currPic, twoViews, pic0)
      ensures old(Settled()) ==> inOrder == old(inOrder)
      ensures flushing && old(queue0.contents) != [] && (forall q | q in old(toGet) :: q in complete) ==> got
    {
      hide Inv, Same, Grown, IsFirst, HandedOut, Without, Leaves, Dpb.Alone;
      ghost var b := State();
      BaseToGet(b);
      got, pic0, pic1 := false, -1, -1;
      var idx0, idx1 := Offer();
      if idx0 >= 0 {
        ghost var c := State();
        GrownSame(b, c);
        HandedOutMeans(b, c, idx0, idx1, borrow);
        SameFirst(b, c, idx0);
        got := true;
        pic0 := ShowBase(idx0, borrow);
        if idx1 >= 0 {
          pic1 := ShowDependent(idx1, borrow);
        }
      }
    }

    // At the end of a stream, after bump_all_frames.
    ghost predicate Draining()
      reads this
    {
      && flushing && busy == {} && currPic == -1 && (twoViews || toGet !! nonBase)
      && forall s | s in toGet :: s in complete && s in output
    }

    /**
     * get_frame: at most one base view goes out, with its dependent view if there is one. What goes out was
     * queued and never went out before. Base views come out by rank as long as each incomplete queued one is
     * being parsed or written, without a flush. A drain with all pictures complete always moves on.
     */
    method GetFrame(borrow: bool) returns (got: bool, pic0: int, pic1: int)
      requires Valid()
      modifies this`toGet, this`output, this`held, this`delivered, this`shown, this`inOrder,
               queue0, queue0.entries, queue1, queue1.entries
      ensures Valid() && |info| == |dispOrder| == |old(info)| == |old(dispOrder)| == MAX_FRAMES
      ensures got ==> 0 <= pic0 < MAX_FRAMES && -1 <= pic1 < MAX_FRAMES
      ensures got ==> HandedOut(old(State()), State(), pic0, pic1, borrow)
      ensures got ==> old(Ready(pic0)) && (pic1 >= 0 ==> pic1 in complete)
      ensures !got ==> forall q: Slot :: !Leaves(old(State()), complete, busy, flushing, currPic, twoViews, q)
      ensures got ==> Leaves(old(State()), complete, busy, flushing, currPic, twoViews, pic0)
      ensures got && twoViews && pic1 < 0 ==> Dpb.Alone(old(State()), flushing, pic0)
      ensures var out: set<Slot> := if !got then {} else if pic1 < 0 then {pic0} else {pic0, pic1};
              got ==> (&& pic0 in old(queue0.contents) && out <= old(toGet) && toGet == old(toGet) - out
                       && held == (if borrow then old(held) + out else old(held))
                       && output == if borrow then old(output) + out else old(output) - out)
      ensures old(Settled()) ==> inOrder == old(inOrder)
      ensures !got ==> Shrunk(old(State()), State())
      ensures !got ==> forall s | s in old(toGet) && s !in toGet :: Orphan(old(State()), busy, currPic, s)
      ensures old(Draining()) && old(toGet) != {} ==> toGet < old(toGet)
      ensures old(Draining()) ==> Draining()
      ensures old(Current()) ==> Current()
    {
      hide Inv, Same, Shrunk, Orphan, HandedOut, Tracked, Leaves, Dpb.Alone;
      ghost var b := State();
      InfoShape(b);
      ShrunkSelf(b);
      got, pic0, pic1 := Serve(borrow);
      if got {
        HandedOutLess(b, State(), pic0, pic1, borrow);
        HandedOutSets(b, State(), pic0, pic1, borrow);
        if old(Current()) {
          HandedOutTracked(b, State(), pic0, pic1, borrow, complete, currPic);
        }
      } else if twoViews {
        DropOrphans();
        ShrunkMeans(b, State());
        if old(Current()) {
          OrphansNotCurrent(b, State(), busy, currPic);
          DroppedTracked(b, State(), complete, currPic);
        }
        if old(Draining()) && b.toGet != {} {
          var s :| s in b.toGet;
          AllOrphans(b, s);
          InDependent(State(), s);
        }
      } else if old(Draining()) {
        NoDependents(b);
      }
    }

    /**
     * The end of a stream: the flush and as many calls as it takes hand out every base view left, by rank.
     */
    method Drain(borrow: bool)
      requires Valid() && (twoViews || toGet !! nonBase)
      modifies this, queue0, queue0.entries, queue1, queue1.entries
      ensures Valid() && toGet == {} && inOrder == old(inOrder) && |info| == MAX_FRAMES
      ensures forall s | s in old(toGet) && s !in old(nonBase) :: info[s].frameId in delivered
    {
      hide Inv, Grown, DisplayOrder, Shrunk, Orphan, HandedOut, Same;
      ghost var b := State();
      flushing := true;
      var again := BumpAll();
      GrownSame(b, State());
      InfoShape(State());
      while toGet != {}
        invariant Valid() && |info| == |dispOrder| == MAX_FRAMES && Draining() && inOrder == b.inOrder
            && nonBase == b.nonBase
        invariant forall s | s in b.toGet && s !in b.nonBase :: s in toGet || info[s].frameId in delivered
        decreases toGet
      {
        ghost var c := State();
        BaseToGet(c);
        var got, pic0, pic1 := GetFrame(borrow);
        if got {
          HandedOutLess(c, State(), pic0, pic1, borrow);
        } else {
          ShrunkMeans(c, State());
        }
      }
    }
  }
}
