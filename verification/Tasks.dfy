/**
 * The slice tasks of multithreaded decoding: which tasks wait, run and follow one another, and which pictures
 * they read and write. Workers take tasks oldest first, continue with the next slice of their picture, and
 * wait for the rows of references still being decoded.
 */
module Tasks {
  import opened Marking
  import opened Sets

  // A row of a reference that has to be final before decoding goes on.
  datatype Need = Need(ref: Slot, addr: int)

  /**
   * A slice: the picture it belongs to, the pictures it may read, the rows left to read in order, and whether
   * its macroblocks were published.
   */
  datatype Task = Task(pic: Slot, refs: set<Slot>, left: seq<Need>, published: bool)

  /**
   * Tasks are named by their decoding order. In flight are the keys of tasks: those pending wait for a worker,
   * the others run, one worker each. Of the pending ones, those chained wait for the worker of the slices
   * before them. A picture is complete or final up to its frontier. For each task, ahead holds the other
   * pictures that have been written ever since the task was created.
   */
  datatype State = State(
    workers: nat, limit: nat,
    tasks: map<nat, Task>, pending: set<nat>, chained: set<nat>, ready: set<nat>, after: map<nat, set<nat>>,
    next: nat, held: int, current: int, complete: set<Slot>, frontier: map<Slot, int>,
    ahead: map<nat, set<Slot>>)
  {
    ghost function Running(): set<nat> {
      tasks.Keys - pending
    }

    function Pool(): set<nat> {
      pending - chained
    }

    // Pictures with a task in flight, and pictures that one reads.
    function Writing(): set<Slot> {
      Pictures(tasks)
    }

    function Depended(): set<Slot> {
      set t, p | t in tasks && p in tasks[t].refs :: p
    }

    function Usable(): set<Slot> {
      complete + Writing()
    }

    // The older tasks of the same picture.
    function Earlier(t: nat): set<nat>
      requires t in tasks
    {
      set x | x in tasks && x < t && tasks[x].pic == tasks[t].pic
    }
  }

  function Pictures(tasks: map<nat, Task>): set<Slot> {
    set t | t in tasks :: tasks[t].pic
  }

  lemma PicturesWithout(tasks: map<nat, Task>, t: nat)
    requires t in tasks
    ensures Pictures(tasks - {t}) <= Pictures(tasks) <= Pictures(tasks - {t}) + {tasks[t].pic}
  {
    var r := tasks - {t};
    forall p | p in Pictures(tasks)
      ensures p in Pictures(r) + {tasks[t].pic}
    {
      var x :| x in tasks && tasks[x].pic == p;
      assert x == t || (x in r && r[x].pic == p);
    }
  }

  // --- the invariant ---

  ghost predicate Shape(s: State) {
    && s.pending <= s.tasks.Keys && s.after.Keys == s.tasks.Keys && s.ahead.Keys == s.tasks.Keys
    && (forall t | t in s.tasks :: t < s.next)
    && (forall t | t in s.tasks && s.tasks[t].published :: t !in s.pending && s.tasks[t].left == [] && t != s.held)
    && (s.held == -1 || (s.held in s.tasks && s.held == s.next - 1))
  }

  // A task waits for all older tasks of its picture, hence only the oldest one of a picture runs.
  ghost predicate Chains(s: State)
    requires Shape(s)
  {
    && s.chained <= s.pending && s.ready == s.Pool()
    && forall t | t in s.tasks :: Waits(s, t)
  }

  ghost predicate Waits(s: State, t: nat)
    requires Shape(s) && t in s.tasks
  {
    s.after[t] == s.Earlier(t) && (t in s.chained <==> s.after[t] != {})
  }

  // A task reads other pictures only, each complete or written by older tasks.
  ghost predicate ReadsOlder(s: State, t: nat)
    requires t in s.tasks
  {
    && s.tasks[t].pic !in s.tasks[t].refs && s.current !in s.tasks[t].refs && s.tasks[t].refs <= s.Usable()
    && (forall x | x in s.tasks && s.tasks[x].pic in s.tasks[t].refs :: x < t)
    && (forall n | n in s.tasks[t].left :: n.ref in s.tasks[t].refs)
  }

  ghost predicate Reads(s: State) {
    forall t | t in s.tasks :: ReadsOlder(s, t)
  }

  // What keeps the workers from being all taken by tasks that overtook one in the pool.
  ghost predicate Unovertaken(s: State, t: nat)
    requires Shape(s) && t in s.tasks
  {
    && s.ahead[t] <= s.Writing() && s.tasks[t].pic !in s.ahead[t]
    && (forall x | x in s.tasks && x < t && s.tasks[x].pic != s.tasks[t].pic :: s.tasks[x].pic in s.ahead[t])
    && (t in s.Pool() ==> forall r | r in s.tasks && r !in s.pending :: s.tasks[r].pic in s.ahead[t])
    && (t < s.next - 1 ==> Card(s.ahead[t]) < s.workers)
  }

  ghost predicate Fair(s: State)
    requires Shape(s)
  {
    && s.limit <= s.workers && Card(s.Running()) <= s.workers
    && forall t | t in s.tasks :: Unovertaken(s, t)
  }

  ghost predicate Inv(s: State) {
    Shape(s) && Chains(s) && Reads(s) && Fair(s)
  }

  // --- progress ---

  predicate IsOldest(tasks: set<nat>, t: nat) {
    t in tasks && forall x | x in tasks :: t <= x
  }

  lemma {:induction false} OldestTask(tasks: set<nat>) returns (t: nat)
    requires tasks != {}
    ensures IsOldest(tasks, t)
    decreases Card(tasks)
  {
    var v :| v in tasks;
    t := v;
    if tasks != {v} {
      assert Card(tasks - {v}) == Card(tasks) - 1;
      var u := OldestTask(tasks - {v});
      t := if v < u then v else u;
      assert forall x | x in tasks :: x == v || x in tasks - {v};
    }
  }

  // The rows needed next are final.
  ghost predicate CanDecode(s: State, t: nat) {
    && t in s.tasks && t !in s.pending && s.tasks[t].left != []
    && var n := s.tasks[t].left[0]; n.ref in s.complete || (n.ref in s.frontier && s.frontier[n.ref] >= n.addr)
  }

  // A task at its end goes on once it knows where the slice ends.
  ghost predicate CanPublish(s: State, t: nat) {
    t in s.tasks && t !in s.pending && s.tasks[t].left == [] && !s.tasks[t].published && t != s.held
  }

  ghost predicate CanEnd(s: State, t: nat) {
    t in s.tasks && t !in s.pending && s.tasks[t].published
  }

  // A worker is idle, and the oldest task of the pool is ready.
  ghost predicate CanTake(s: State, t: nat) {
    Card(s.tasks.Keys - s.pending) < s.workers && IsOldest(s.Pool(), t) && t in s.ready
  }

  /** The oldest task in flight always can be taken, decode on or finish, unless it is the one held. */
  lemma OldestMoves(s: State, o: nat)
    requires Inv(s) && IsOldest(s.tasks.Keys, o) && o != s.held && s.workers >= 1
    ensures CanTake(s, o) || CanDecode(s, o) || CanPublish(s, o) || CanEnd(s, o)
  {
    hide Card;
    if o in s.pending {
      assert s.Earlier(o) == {};
      IdleWorker(s, o);
    } else if s.tasks[o].left != [] {
      var n := s.tasks[o].left[0];
      assert n.ref in s.Usable();
    }
  }

  /** No worker is taken when the oldest task in flight waits for one. */
  lemma IdleWorker(s: State, o: nat)
    requires Inv(s) && IsOldest(s.tasks.Keys, o) && o in s.Pool() && s.workers >= 1
    ensures Card(s.Running()) < s.workers
  {
    hide Card;
    RunningPictures(s, s.Running(), s.ahead[o]);
    if s.Running() == {} {
      CardEmpty(s.Running());
    } else {
      var r :| r in s.Running();
      assert o < r < s.next;
    }
  }

  lemma RunningApart(s: State, q: nat, r: nat)
    requires Shape(s) && Chains(s) && q in s.Running() && r in s.Running() && q < r
    ensures s.tasks[q].pic != s.tasks[r].pic
  {
    assert q !in s.Earlier(r);
  }

  /** Running tasks belong to different pictures. */
  lemma {:induction false} RunningPictures(s: State, run: set<nat>, pics: set<Slot>)
    requires Shape(s) && Chains(s) && run <= s.Running() && forall r | r in run :: s.tasks[r].pic in pics
    ensures Card(run) <= Card(pics)
    decreases Card(run)
  {
    hide Chains, Card;
    CardEmpty(run);
    if run != {} {
      var r :| r in run;
      var p := s.tasks[r].pic;
      CardDrop(run, r);
      forall q | q in run - {r}
        ensures s.tasks[q].pic in pics - {p}
      {
        if q < r {
          RunningApart(s, q, r);
        } else {
          RunningApart(s, r, q);
        }
      }
      RunningPictures(s, run - {r}, pics - {p});
      CardDrop(pics, p);
    }
  }

  // --- steps of the parser ---

  // Pictures wanted that are neither complete nor written nor being parsed: nobody will complete them.
  function Terminal(s: State, wanted: set<Slot>): set<Slot> {
    set p | p in s.Depended() + wanted && p !in s.Usable() && p != s.current
  }

  /** Such pictures are concealed, which completes them. */
  function Concealed(s: State, wanted: set<Slot>): State {
    s.(complete := s.complete + Terminal(s, wanted))
  }

  /** Concealed are exactly the pictures read or wanted that no task in flight writes, but for the current one. */
  lemma ConcealedMeans(s: State, wanted: set<Slot>, p: Slot)
    ensures p in Concealed(s, wanted).complete <==>
            p in s.complete
            || (p != s.current && (p in wanted || exists t :: t in s.tasks && p in s.tasks[t].refs)
                && forall t | t in s.tasks :: s.tasks[t].pic != p)
  {
    var writing := s.Writing();
    assert p in writing <==> exists t :: t in s.tasks && s.tasks[t].pic == p;
    assert p in s.Depended() <==> exists t :: t in s.tasks && p in s.tasks[t].refs;
  }

  lemma ConcealedInv(s: State, wanted: set<Slot>)
    requires Inv(s)
    ensures Inv(Concealed(s, wanted))
  {
    hide Chains, Reads, Fair, Terminal;
    var r := Concealed(s, wanted);
    forall t | t in s.tasks
      ensures ReadsOlder(s, t) && s.tasks[t].refs <= r.Usable() && r.current !in s.tasks[t].refs
    {
      ReadsMeans(s, t);
    }
    SameTasks(s, r);
  }

  lemma ReadsMeans(s: State, t: nat)
    requires Reads(s) && t in s.tasks
    ensures ReadsOlder(s, t)
  {
  }

  // A step that leaves the tasks as they are.
  lemma SameTasks(s: State, r: State)
    requires Inv(s) && Shape(r) && r.next == s.next && r.workers == s.workers && r.limit == s.limit
        && r.ready == s.ready
    requires r.tasks == s.tasks && r.pending == s.pending && r.chained == s.chained && r.ahead == s.ahead
        && r.after == s.after
    requires forall t | t in s.tasks :: s.tasks[t].refs <= r.Usable() && r.current !in s.tasks[t].refs
    ensures Inv(r)
  {
    hide Chains, Reads, Fair;
    FairKept(s, r);
    ChainsKept(s, r);
    ReadsKept(s, r);
  }

  lemma ChainsKept(s: State, r: State)
    requires Shape(s) && Chains(s) && Shape(r) && r.ready == s.ready
    requires r.tasks == s.tasks && r.pending == s.pending && r.chained == s.chained && r.after == s.after
    ensures Chains(r)
  {
  }

  lemma ReadsKept(s: State, r: State)
    requires Reads(s) && r.tasks == s.tasks
    requires forall t | t in s.tasks :: s.tasks[t].refs <= r.Usable() && r.current !in s.tasks[t].refs
    ensures Reads(r)
  {
    forall t | t in r.tasks
      ensures ReadsOlder(r, t)
    {
      assert ReadsOlder(s, t);
    }
  }

  // Fairness is about the tasks alone.
  lemma FairKept(s: State, r: State)
    requires Shape(s) && Fair(s) && Shape(r) && r.next == s.next && r.workers == s.workers && r.limit == s.limit
    requires r.tasks == s.tasks && r.pending == s.pending && r.chained == s.chained && r.ahead == s.ahead
    ensures Fair(r)
  {
    hide Card;
    forall t | t in r.tasks
      ensures Unovertaken(r, t)
    {
      assert Unovertaken(s, t);
    }
  }

  /** A new picture takes a slot that no task in flight reads, nor writes unless it is complete. */
  function Begun(s: State, slot: Slot): State {
    s.(current := slot, complete := s.complete - {slot}, frontier := s.frontier[slot := 0])
  }

  lemma BegunInv(s: State, slot: Slot)
    requires Inv(s) && slot !in s.Depended()
    ensures Inv(Begun(s, slot))
  {
    hide Chains, Reads, Fair;
    var r := Begun(s, slot);
    forall t | t in s.tasks
      ensures s.tasks[t].refs <= r.Usable() && slot !in s.tasks[t].refs
    {
      ReadsMeans(s, t);
      assert forall p | p in s.tasks[t].refs :: p in s.Depended();
    }
    SameTasks(s, r);
  }

  /** The held task learns where its slice ends. */
  function Released(s: State): State {
    s.(held := -1)
  }

  lemma ReleasedInv(s: State)
    requires Inv(s)
    ensures Inv(Released(s))
  {
    hide Chains, Reads, Fair;
    forall t | t in s.tasks
      ensures ReadsOlder(s, t)
    {
      ReadsMeans(s, t);
    }
    SameTasks(s, Released(s));
  }

  /** A slice of the current picture becomes a task, which waits for the older ones of the picture. */
  function Joined(s: State, refs: set<Slot>, left: seq<Need>): State
    requires 0 <= s.current < MAX_FRAMES
  {
    var t := s.next;
    var older := set x | x in s.tasks && s.tasks[x].pic == s.current;
    s.(tasks := s.tasks[t := Task(s.current, refs, left, false)], pending := s.pending + {t},
       chained := if older == {} then s.chained else s.chained + {t},
       ready := if older == {} then s.ready + {t} else s.ready,
       after := s.after[t := older], next := t + 1, held := t,
       ahead := s.ahead[t := s.Writing() - {s.current}])
  }

  /** The pictures a new task waits for are concealed if they have to be. */
  function Added(s: State, refs: set<Slot>, left: seq<Need>, wanted: set<Slot>): State
    requires 0 <= s.current < MAX_FRAMES
  {
    var r := Joined(s, refs, left);
    if s.next in r.ready && refs <= r.Usable() then r else Concealed(r, wanted)
  }

  // A slice of the current picture that does not read it, while no more pictures are written than allowed.
  ghost predicate MayAdd(s: State, refs: set<Slot>, left: seq<Need>) {
    && 0 <= s.current < MAX_FRAMES && s.current !in refs && (forall n | n in left :: n.ref in refs)
    && Card(s.Writing()) <= s.limit
  }

  lemma AddedInv(s: State, refs: set<Slot>, left: seq<Need>, wanted: set<Slot>)
    requires Inv(s) && MayAdd(s, refs, left)
    ensures Inv(Added(s, refs, left, wanted))
  {
    hide Chains, Reads, Fair, Card;
    var r := Joined(s, refs, left);
    var q := Added(s, refs, left, wanted);
    JoinedChains(s, refs, left);
    JoinedFair(s, refs, left);
    ChainsKept(r, q);
    FairKept(r, q);
    forall t | t in q.tasks
      ensures q.tasks[t].refs <= q.Usable()
    {
      AddedUsable(s, refs, left, wanted, t);
    }
    AddedReads(s, refs, left, q);
  }

  lemma JoinedShape(s: State, refs: set<Slot>, left: seq<Need>)
    requires Shape(s) && 0 <= s.current < MAX_FRAMES
    ensures Shape(Joined(s, refs, left))
  {
  }

  lemma JoinedChains(s: State, refs: set<Slot>, left: seq<Need>)
    requires Shape(s) && Chains(s) && 0 <= s.current < MAX_FRAMES
    ensures Shape(Joined(s, refs, left)) && Chains(Joined(s, refs, left))
  {
    hide Shape, Waits;
    JoinedShape(s, refs, left);
    var r := Joined(s, refs, left);
    assert s.next !in s.tasks && s.pending <= s.tasks.Keys by {
      KeysBelow(s);
    }
    forall t | t in r.tasks
      ensures Waits(r, t)
    {
      if t == s.next {
        JoinedWaitsNew(s, refs, left);
      } else {
        JoinedWaits(s, refs, left, t);
      }
    }
  }

  lemma KeysBelow(s: State)
    requires Shape(s)
    ensures s.next !in s.tasks && s.pending <= s.tasks.Keys && s.after.Keys == s.tasks.Keys
        && s.ahead.Keys == s.tasks.Keys
  {
  }

  lemma JoinedWaits(s: State, refs: set<Slot>, left: seq<Need>, t: nat)
    requires Shape(s) && t in s.tasks && Waits(s, t) && 0 <= s.current < MAX_FRAMES && Shape(Joined(s, refs, left))
    ensures Waits(Joined(s, refs, left), t)
  {
    var r := Joined(s, refs, left);
    assert r.Earlier(t) == s.Earlier(t);
  }

  lemma JoinedWaitsNew(s: State, refs: set<Slot>, left: seq<Need>)
    requires Shape(s) && s.chained <= s.pending && 0 <= s.current < MAX_FRAMES && Shape(Joined(s, refs, left))
    ensures Waits(Joined(s, refs, left), s.next)
  {
    var r := Joined(s, refs, left);
    assert r.after[s.next] == r.Earlier(s.next);
  }

  lemma JoinedFair(s: State, refs: set<Slot>, left: seq<Need>)
    requires Shape(s) && Fair(s) && Chains(s) && MayAdd(s, refs, left) && Shape(Joined(s, refs, left))
    ensures Fair(Joined(s, refs, left))
  {
    hide Card, Unovertaken, Chains;
    var r := Joined(s, refs, left);
    assert r.Running() == s.Running();
    forall t | t in r.tasks
      ensures Unovertaken(r, t)
    {
      JoinedWriting(s, refs, left);
      if t != s.next {
        AheadFew(s, t);
        JoinedOld(s, refs, left, t);
      } else {
        JoinedNew(s, refs, left);
      }
    }
  }

  lemma JoinedWriting(s: State, refs: set<Slot>, left: seq<Need>)
    requires Shape(s) && 0 <= s.current < MAX_FRAMES
    ensures Joined(s, refs, left).Writing() == s.Writing() + {s.current}
  {
    var r := Joined(s, refs, left);
    assert r.tasks[s.next].pic == s.current;
    assert forall t | t in s.tasks :: r.tasks[t] == s.tasks[t];
  }

  lemma JoinedOld(s: State, refs: set<Slot>, left: seq<Need>, t: nat)
    requires Shape(s) && t in s.tasks && Unovertaken(s, t) && 0 <= s.current < MAX_FRAMES
        && Card(s.ahead[t]) < s.workers
    requires Shape(Joined(s, refs, left)) && Joined(s, refs, left).Writing() == s.Writing() + {s.current}
    ensures Unovertaken(Joined(s, refs, left), t)
  {
    hide Card;
  }

  lemma JoinedNew(s: State, refs: set<Slot>, left: seq<Need>)
    requires Shape(s) && 0 <= s.current < MAX_FRAMES
    requires Shape(Joined(s, refs, left)) && Joined(s, refs, left).Writing() == s.Writing() + {s.current}
    ensures Unovertaken(Joined(s, refs, left), s.next)
  {
    hide Card;
  }

  lemma AheadFew(s: State, t: nat)
    requires Shape(s) && t in s.tasks && Unovertaken(s, t) && Card(s.Writing()) <= s.limit <= s.workers
    ensures Card(s.ahead[t]) < s.workers
  {
    hide Card;
    var p := s.tasks[t].pic;
    assert p in s.Writing();
    CardDrop(s.Writing(), p);
    CardSubset(s.ahead[t], s.Writing() - {p});
  }

  lemma AddedUsable(s: State, refs: set<Slot>, left: seq<Need>, wanted: set<Slot>, t: nat)
    requires Inv(s) && MayAdd(s, refs, left) && t in Added(s, refs, left, wanted).tasks
    ensures var q := Added(s, refs, left, wanted); q.tasks[t].refs <= q.Usable()
  {
    hide Chains, Fair, Card;
    var r := Joined(s, refs, left);
    var q := Added(s, refs, left, wanted);
    forall p | p in r.tasks[t].refs
      ensures p in q.Usable() && p != s.current
    {
      if t != s.next {
        assert ReadsOlder(s, t);
      }
      assert p in r.Depended();
      UsableGrows(s, refs, left, p);
    }
  }

  lemma UsableGrows(s: State, refs: set<Slot>, left: seq<Need>, p: Slot)
    requires 0 <= s.current < MAX_FRAMES && s.next !in s.tasks
    ensures p in s.Usable() ==> p in Joined(s, refs, left).Usable()
  {
    var r := Joined(s, refs, left);
    assert forall t | t in s.tasks :: r.tasks[t] == s.tasks[t];
  }

  lemma AddedReads(s: State, refs: set<Slot>, left: seq<Need>, q: State)
    requires Shape(s) && Reads(s) && MayAdd(s, refs, left) && q.tasks == Joined(s, refs, left).tasks
        && q.current == s.current
    requires forall t | t in q.tasks :: q.tasks[t].refs <= q.Usable()
    ensures Reads(q)
  {
    hide Card;
    forall t | t in q.tasks
      ensures ReadsOlder(q, t)
    {
      if t != s.next {
        assert ReadsOlder(s, t);
      }
    }
  }

  // --- steps of the workers ---

  /** The oldest task of the pool starts. */
  function Started(s: State, t: nat): State {
    s.(pending := s.pending - {t}, ready := s.ready - {t})
  }

  /** A row of the picture gets final, or is taken back. */
  function Decoded(s: State, t: nat, addr: int): State
    requires t in s.tasks && s.tasks[t].left != []
  {
    var k := s.tasks[t];
    s.(tasks := s.tasks[t := k.(left := k.left[1..])], frontier := s.frontier[k.pic := addr])
  }

  /** The slice is published, and maybe completes its picture. */
  function Published(s: State, t: nat, completes: bool): State
    requires t in s.tasks
  {
    var k := s.tasks[t];
    s.(tasks := s.tasks[t := k.(published := true)], complete := if completes then s.complete + {k.pic} else s.complete)
  }

  // The next slice of the picture.
  function Next(s: State, t: nat): set<nat> {
    set i | i in s.after && s.after[i] == {t}
  }

  /** The task ends and the next slice of its picture starts. Pictures left without a writer are concealed if wanted. */
  function Ended(s: State, t: nat, wanted: set<Slot>): State {
    Concealed(Left(s, t), wanted)
  }

  lemma StartedInv(s: State, t: nat)
    requires Inv(s) && CanTake(s, t)
    ensures Inv(Started(s, t))
  {
    hide Waits, ReadsOlder, Unovertaken, Card;
    var r := Started(s, t);
    assert r.Running() == s.Running() + {t};
    CardInsert(s.Running(), t);
    forall u | u in r.tasks
      ensures Waits(r, u) && ReadsOlder(r, u) && Unovertaken(r, u)
    {
      StartedTask(s, t, u);
    }
  }

  lemma StartedTask(s: State, t: nat, u: nat)
    requires Shape(s) && t in s.Pool() && IsOldest(s.Pool(), t) && u in s.tasks && t in s.tasks
    requires Waits(s, u) && ReadsOlder(s, u) && Unovertaken(s, u) && Shape(Started(s, t))
    ensures Waits(Started(s, t), u) && ReadsOlder(Started(s, t), u) && Unovertaken(Started(s, t), u)
  {
    hide Card;
    var r := Started(s, t);
    assert r.Earlier(u) == s.Earlier(u);
    if u in r.Pool() {
      assert u in s.Pool();
      assert t !in s.Earlier(u);
    }
  }

  // A step after which the tasks belong to the same pictures and wait for the same ones.
  ghost predicate SamePictures(s: State, r: State) {
    && r.tasks.Keys == s.tasks.Keys && s.complete <= r.complete && r.current == s.current
    && (forall t | t in s.tasks :: r.tasks[t].pic == s.tasks[t].pic && r.tasks[t].refs == s.tasks[t].refs)
    && (forall t, n | t in s.tasks && n in r.tasks[t].left :: n in s.tasks[t].left)
    && r.pending == s.pending && r.chained == s.chained && r.ready == s.ready && r.after == s.after
        && r.ahead == s.ahead
    && r.next == s.next && r.workers == s.workers && r.limit == s.limit
  }

  lemma SamePicturesInv(s: State, r: State)
    requires Inv(s) && Shape(r) && SamePictures(s, r)
    ensures Inv(r)
  {
    hide Waits, ReadsOlder, Unovertaken, Card, SamePictures;
    assert r.Pool() == s.Pool() && r.Running() == s.Running() && r.tasks.Keys == s.tasks.Keys by {
      SamePicturesShape(s, r);
    }
    SamePicturesShape(s, r);
    forall u | u in r.tasks
      ensures Waits(r, u) && ReadsOlder(r, u) && Unovertaken(r, u)
    {
      assert u in s.tasks;
      SamePicturesTask(s, r, u);
    }
  }

  lemma SamePicturesShape(s: State, r: State)
    requires SamePictures(s, r)
    ensures r.tasks.Keys == s.tasks.Keys && r.Pool() == s.Pool() && r.Running() == s.Running()
        && r.Writing() == s.Writing()
    ensures r.chained == s.chained && r.pending == s.pending && r.ready == s.ready && r.workers == s.workers
        && r.limit == s.limit
  {
  }

  lemma SamePicturesTask(s: State, r: State, u: nat)
    requires Shape(s) && Shape(r) && SamePictures(s, r) && u in s.tasks && u in r.tasks
    requires Waits(s, u) && ReadsOlder(s, u) && Unovertaken(s, u)
    ensures Waits(r, u) && ReadsOlder(r, u) && Unovertaken(r, u)
  {
    hide Card;
    assert r.Earlier(u) == s.Earlier(u);
    SamePicturesShape(s, r);
  }

  lemma DecodedInv(s: State, t: nat, addr: int)
    requires Inv(s) && CanDecode(s, t)
    ensures Inv(Decoded(s, t, addr))
  {
    hide Chains, Reads, Fair;
    SamePicturesInv(s, Decoded(s, t, addr));
  }

  lemma PublishedInv(s: State, t: nat, completes: bool)
    requires Inv(s) && CanPublish(s, t)
    ensures Inv(Published(s, t, completes))
  {
    hide Chains, Reads, Fair;
    SamePicturesInv(s, Published(s, t, completes));
  }

  // At most one task is next.
  lemma NextLeast(s: State, t: nat, i: nat, j: nat)
    requires Shape(s) && Chains(s) && t in s.Running() && i in Next(s, t) && j in Next(s, t)
    ensures i <= j
  {
    assert Waits(s, i) && Waits(s, j) && Waits(s, t);
    assert t in s.Earlier(i) && t in s.Earlier(j);
    assert j < i <==> j in s.Earlier(i);
  }

  lemma NextFew(s: State, t: nat)
    requires Shape(s) && Chains(s) && t in s.Running()
    ensures Card(Next(s, t)) <= 1
  {
    hide Chains;
    var n := Next(s, t);
    if n != {} {
      var i :| i in n;
      forall j | j in n
        ensures j == i
      {
        NextLeast(s, t, i, j);
        NextLeast(s, t, j, i);
      }
      assert n == {i};
    }
  }

  // The state when a task has ended, before concealing.
  function Left(s: State, t: nat): State {
    var tasks := s.tasks - {t};
    s.(tasks := tasks, pending := s.pending - Next(s, t), chained := s.chained - Next(s, t),
       after := map i | i in s.after && i != t :: s.after[i] - {t},
       ahead := map i | i in s.ahead && i != t :: s.ahead[i] * Pictures(tasks))
  }

  lemma LeftShape(s: State, t: nat)
    requires Shape(s) && CanEnd(s, t)
    ensures Shape(Left(s, t))
  {
  }

  lemma LeftWaits(s: State, t: nat, u: nat)
    requires Shape(s) && CanEnd(s, t) && Shape(Left(s, t)) && u in s.tasks && u != t && Waits(s, u)
    ensures Waits(Left(s, t), u)
  {
    var r := Left(s, t);
    assert r.Earlier(u) == s.Earlier(u) - {t};
  }

  lemma LeftChains(s: State, t: nat)
    requires Shape(s) && Chains(s) && CanEnd(s, t) && Shape(Left(s, t))
    ensures Chains(Left(s, t))
  {
    hide Waits, Shape;
    var r := Left(s, t);
    NextChained(s, t);
    assert r.Pool() == s.Pool();
    forall u | u in r.tasks
      ensures Waits(r, u)
    {
      LeftWaits(s, t, u);
    }
  }

  lemma NextChained(s: State, t: nat)
    requires Shape(s) && Chains(s)
    ensures Next(s, t) <= s.chained && Next(s, t) <= s.pending && Next(s, t) <= s.tasks.Keys
  {
    forall i | i in Next(s, t)
      ensures i in s.chained
    {
      assert Waits(s, i);
    }
  }

  lemma LeftFair(s: State, t: nat)
    requires Shape(s) && Chains(s) && Fair(s) && CanEnd(s, t) && Shape(Left(s, t))
    ensures Fair(Left(s, t))
  {
    hide Chains, Unovertaken, Card, Shape, Next;
    var r := Left(s, t);
    NextFew(s, t);
    NextChained(s, t);
    RunningKept(s.Running(), t, Next(s, t));
    assert r.Running() == s.Running() - {t} + Next(s, t);
    forall u | u in r.tasks
      ensures Unovertaken(r, u)
    {
      LeftTask(s, t, u);
    }
  }

  lemma RunningKept(run: set<nat>, t: nat, n: set<nat>)
    requires t in run && Card(n) <= 1
    ensures Card(run - {t} + n) <= Card(run)
  {
    if n != {} {
      var i :| i in n;
      assert Card(n - {i}) == 0;
      assert n == {i};
    }
  }

  lemma LeftTask(s: State, t: nat, u: nat)
    requires Shape(s) && Chains(s) && CanEnd(s, t) && Shape(Left(s, t)) && u in s.tasks && u != t
    requires Unovertaken(s, u)
    ensures Unovertaken(Left(s, t), u)
  {
    hide Chains, Left, Card;
    var r := Left(s, t);
    LeftFields(s, t);
    LeftFew(s, t, u);
    if u in r.Pool() {
      forall x | x in r.tasks && x !in r.pending
        ensures r.tasks[x].pic in r.ahead[u]
      {
        LeftRunning(s, t, u, x);
      }
    }
  }

  lemma LeftFew(s: State, t: nat, u: nat)
    requires Shape(s) && CanEnd(s, t) && Shape(Left(s, t)) && u in s.tasks && u != t
    ensures Card(Left(s, t).ahead[u]) <= Card(s.ahead[u])
  {
    hide Left;
    LeftFields(s, t);
    CardSubset(Left(s, t).ahead[u], s.ahead[u]);
  }

  lemma LeftFields(s: State, t: nat)
    requires Shape(s) && CanEnd(s, t) && Shape(Left(s, t))
    ensures var r := Left(s, t);
            && r.tasks.Keys == s.tasks.Keys - {t}
            && (forall x | x in r.tasks :: r.tasks[x] == s.tasks[x] && r.tasks[x].pic in r.Writing())
            && r.pending == s.pending - Next(s, t) && r.chained == s.chained - Next(s, t)
            && r.next == s.next && r.current == s.current && r.complete == s.complete && r.workers == s.workers
                && r.limit == s.limit
            && (forall u | u in r.tasks :: r.ahead[u] == s.ahead[u] * r.Writing())
            && r.Writing() <= s.Writing() && s.Writing() <= r.Writing() + {s.tasks[t].pic}
  {
    PicturesWithout(s.tasks, t);
    var r := Left(s, t);
    forall x | x in r.tasks
      ensures r.tasks[x] == s.tasks[x] && r.tasks[x].pic in r.Writing()
    {
    }
    hide Pictures, Next;
  }

  lemma LeftRunning(s: State, t: nat, u: nat, x: nat)
    requires Shape(s) && Chains(s) && CanEnd(s, t) && Shape(Left(s, t)) && u in s.tasks && u != t && Unovertaken(s, u)
    requires u in Left(s, t).Pool() && x in Left(s, t).tasks && x !in Left(s, t).pending
    ensures Left(s, t).tasks[x].pic in Left(s, t).ahead[u]
  {
    hide Card, Left, Waits;
    NextChained(s, t);
    LeftFields(s, t);
    assert u in s.Pool();
    if x in Next(s, t) {
      NextSame(s, t, x);
    }
  }

  lemma NextSame(s: State, t: nat, x: nat)
    requires Shape(s) && Chains(s) && x in Next(s, t)
    ensures x in s.tasks && t in s.tasks && s.tasks[x].pic == s.tasks[t].pic
  {
    assert Waits(s, x) && t in s.Earlier(x);
  }

  lemma LeftReads(s: State, t: nat, wanted: set<Slot>, u: nat)
    requires Shape(s) && CanEnd(s, t) && Shape(Left(s, t)) && u in s.tasks && u != t && ReadsOlder(s, u)
    ensures ReadsOlder(Ended(s, t, wanted), u)
  {
    hide Left;
    LeftFields(s, t);
    var r := Left(s, t);
    forall p | p in s.tasks[u].refs
      ensures p in Ended(s, t, wanted).Usable()
    {
      assert p in r.Depended();
    }
  }

  /** When a task ends, the next slice of its picture starts, and nothing else changes hands. */
  lemma EndedInv(s: State, t: nat, wanted: set<Slot>)
    requires Inv(s) && CanEnd(s, t)
    ensures Inv(Ended(s, t, wanted))
  {
    hide Chains, Fair, ReadsOlder, Terminal;
    LeftShape(s, t);
    LeftChains(s, t);
    LeftFair(s, t);
    var q := Ended(s, t, wanted);
    ChainsKept(Left(s, t), q);
    FairKept(Left(s, t), q);
    forall u | u in q.tasks
      ensures ReadsOlder(q, u)
    {
      LeftReads(s, t, wanted, u);
    }
  }
}
