/** Runs of the parser and the workers: what every interleaving keeps, and that workers never get stuck. */
module Progress {
  import opened Marking
  import opened Tasks

  /** Steps of the parser (the first four) and of the workers. */
  datatype Step =
    | Begin(slot: Slot)
    | Add(refs: set<Slot>, left: seq<Need>, wanted: set<Slot>)
    | Release
    | Conceal(wanted: set<Slot>)
    | Take(t: nat)
    | Decode(t: nat, addr: int)
    | Publish(t: nat, completes: bool)
    | End(t: nat, wanted: set<Slot>)

  ghost predicate Enabled(s: State, step: Step) {
    match step
    case Begin(slot) => slot !in s.Depended() && (slot in s.complete || slot !in s.Writing())
    case Add(refs, left, wanted) => MayAdd(s, refs, left)
    case Release => true
    case Conceal(wanted) => true
    case Take(t) => CanTake(s, t)
    case Decode(t, addr) => CanDecode(s, t)
    case Publish(t, completes) => CanPublish(s, t)
    case End(t, wanted) => CanEnd(s, t)
  }

  function After(s: State, step: Step): State
    requires Enabled(s, step)
  {
    match step
    case Begin(slot) => Begun(s, slot)
    case Add(refs, left, wanted) => Added(s, refs, left, wanted)
    case Release => Released(s)
    case Conceal(wanted) => Concealed(s, wanted)
    case Take(t) => Started(s, t)
    case Decode(t, addr) => Decoded(s, t, addr)
    case Publish(t, completes) => Published(s, t, completes)
    case End(t, wanted) => Ended(s, t, wanted)
  }

  lemma StepInv(s: State, step: Step)
    requires Inv(s) && Enabled(s, step)
    ensures Inv(After(s, step))
  {
    hide Inv, Added, Ended, Concealed, MayAdd, CanTake, CanDecode, CanPublish, CanEnd;
    match step {
      case Begin(slot) => BegunInv(s, slot);
      case Add(refs, left, wanted) => AddedInv(s, refs, left, wanted);
      case Release => ReleasedInv(s);
      case Conceal(wanted) => ConcealedInv(s, wanted);
      case Take(t) => StartedInv(s, t);
      case Decode(t, addr) => DecodedInv(s, t, addr);
      case Publish(t, completes) => PublishedInv(s, t, completes);
      case End(t, wanted) => EndedInv(s, t, wanted);
    }
  }

  // No task in flight writes a picture.
  ghost predicate Unwritten(s: State, p: Slot) {
    forall t | t in s.tasks :: s.tasks[t].pic != p
  }

  /**
   * Which pictures a step completes: publishing the last slice completes its picture. All others are concealed,
   * and those are neither written by a task in flight nor being parsed. A new picture is not complete.
   */
  lemma Completes(s: State, step: Step, p: Slot)
    requires Inv(s) && Enabled(s, step)
    ensures var r := After(s, step);
            match step
            case Publish(t, completes) => p in r.complete <==> p in s.complete || (completes && p == s.tasks[t].pic)
            case Begin(slot) => p in r.complete <==> p in s.complete && p != slot
            case _ => (p in s.complete ==> p in r.complete)
                      && (p in r.complete && p !in s.complete ==> p != s.current && Unwritten(r, p))
  {
    hide Inv, Chains, Reads, Fair, Terminal;
    match step {
      case Add(refs, left, wanted) => ConcealedMeans(Joined(s, refs, left), wanted, p);
      case Conceal(wanted) => ConcealedMeans(s, wanted, p);
      case End(t, wanted) => ConcealedMeans(Left(s, t), wanted, p);
      case _ =>
    }
  }

  /** After a task has ended, whatever is read or wanted is complete, being written or being parsed. */
  lemma NothingAbandoned(s: State, step: Step, p: Slot)
    requires Inv(s) && Enabled(s, step) && (step.End? || step.Conceal?)
    ensures var r := After(s, step);
            (p in step.wanted || exists t :: t in r.tasks && p in r.tasks[t].refs) ==>
              p in r.complete || p == r.current || !Unwritten(r, p)
  {
    hide Inv, Chains, Reads, Fair, Terminal;
    if step.End? {
      ConcealedMeans(Left(s, step.t), step.wanted, p);
    } else {
      ConcealedMeans(s, step.wanted, p);
    }
  }

  /** A row of another picture is read once that is complete or its frontier has passed the row. */
  lemma RowsRead(s: State, t: nat)
    requires Inv(s) && CanDecode(s, t)
    ensures var n := s.tasks[t].left[0];
            && (n.ref in s.complete || (n.ref in s.frontier && s.frontier[n.ref] >= n.addr))
            && n.ref != s.tasks[t].pic && n.ref != s.current
  {
    hide Shape, Chains, Fair;
    InvReads(s);
    ReadsMeans(s, t);
  }

  lemma InvReads(s: State)
    requires Inv(s)
    ensures Reads(s)
  {
  }

  function Start(workers: nat, limit: nat): State {
    State(workers, limit, map[], {}, {}, {}, map[], 0, -1, -1, {}, map[], map[])
  }

  // A run: each step is enabled where the ones before it lead.
  ghost predicate Runs(s: State, steps: seq<Step>)
    decreases |steps|
  {
    steps == [] || (Enabled(s, steps[0]) && Runs(After(s, steps[0]), steps[1..]))
  }

  ghost function Final(s: State, steps: seq<Step>): State
    requires Runs(s, steps)
    decreases |steps|
  {
    if steps == [] then s else Final(After(s, steps[0]), steps[1..])
  }

  lemma StartInv(workers: nat, limit: nat)
    requires limit <= workers
    ensures Inv(Start(workers, limit))
  {
  }

  /** Whatever the interleaving of parser and workers, the invariant holds. */
  lemma {:induction false} RunInv(s: State, steps: seq<Step>)
    requires Inv(s) && Runs(s, steps)
    ensures Inv(Final(s, steps)) && Final(s, steps).workers == s.workers
    decreases |steps|
  {
    hide Inv, Enabled;
    if steps != [] {
      StepInv(s, steps[0]);
      StepWorkers(s, steps[0]);
      RunInv(After(s, steps[0]), steps[1..]);
    }
  }

  lemma StepWorkers(s: State, step: Step)
    requires Enabled(s, step)
    ensures After(s, step).workers == s.workers
  {
  }

  // --- deadlock freedom ---

  predicate OfWorker(step: Step) {
    step.Take? || step.Decode? || step.Publish? || step.End?
  }

  // No worker can go on.
  ghost predicate Stuck(s: State) {
    forall t: nat :: !CanTake(s, t) && !CanDecode(s, t) && !CanPublish(s, t) && !CanEnd(s, t)
  }

  /** After any run, workers are stuck only if no task but the one held is in flight. */
  lemma NeverStuck(workers: nat, limit: nat, steps: seq<Step>)
    requires limit <= workers && workers >= 1 && Runs(Start(workers, limit), steps)
    ensures var s := Final(Start(workers, limit), steps);
            Stuck(s) ==> forall t | t in s.tasks :: t == s.held
  {
    hide Inv, Stuck, Runs;
    StartInv(workers, limit);
    RunInv(Start(workers, limit), steps);
    var s := Final(Start(workers, limit), steps);
    if Stuck(s) {
      StuckMeans(s);
    }
  }

  lemma HeldNewest(s: State, o: nat)
    requires Inv(s) && IsOldest(s.tasks.Keys, o) && exists t :: t in s.tasks && t != s.held
    ensures o != s.held
  {
    hide Chains, Reads, Fair;
    var t :| t in s.tasks && t != s.held;
    assert o <= t < s.next;
  }

  // --- the workers come to an end ---

  // What is left to do for a task, and for all tasks before one.
  function Weight(s: State, t: nat): nat
    requires t in s.tasks
  {
    |s.tasks[t].left| + (if s.tasks[t].published then 1 else 2) + (if t in s.pending then 1 else 0)
  }

  function WorkBelow(s: State, n: nat): nat {
    if n == 0 then 0 else WorkBelow(s, n - 1) + if n - 1 in s.tasks then Weight(s, n - 1) else 0
  }

  function Work(s: State): nat {
    WorkBelow(s, s.next)
  }

  // No task has more to do, and one has less.
  ghost predicate LessFor(s: State, r: State, t: nat) {
    && r.tasks.Keys <= s.tasks.Keys && (forall u | u in r.tasks :: Weight(r, u) <= Weight(s, u))
    && t in s.tasks && (t in r.tasks ==> Weight(r, t) < Weight(s, t))
  }

  lemma {:induction false} LessWork(s: State, r: State, t: nat, n: nat)
    requires LessFor(s, r, t)
    ensures WorkBelow(r, n) <= WorkBelow(s, n) && (t < n ==> WorkBelow(r, n) < WorkBelow(s, n))
  {
    if n > 0 {
      LessWork(s, r, t, n - 1);
    }
  }

  lemma StepLess(s: State, step: Step)
    requires Inv(s) && Enabled(s, step) && OfWorker(step)
    ensures Work(After(s, step)) < Work(s)
  {
    hide Chains, Reads, Fair;
    var r := After(s, step);
    assert r.next == s.next;
    assert step.t < s.next && LessFor(s, r, step.t);
    LessWork(s, r, step.t, s.next);
  }

  /**
   * Without the parser, workers make no more steps than there is work, in any order. When they cannot go on,
   * all tasks have ended but for the one held.
   */
  lemma {:induction false} WorkersEnd(s: State, steps: seq<Step>)
    requires Inv(s) && s.workers >= 1 && Runs(s, steps) && forall step | step in steps :: OfWorker(step)
    ensures |steps| <= Work(s)
    ensures Stuck(Final(s, steps)) ==> forall t | t in Final(s, steps).tasks :: t == s.held
    decreases |steps|
  {
    hide Inv, Enabled, Stuck, Work;
    if steps == [] {
      if Stuck(s) {
        StuckMeans(s);
      }
    } else {
      assert OfWorker(steps[0]);
      StepInv(s, steps[0]);
      StepLess(s, steps[0]);
      StepHeld(s, steps[0]);
      WorkersEnd(After(s, steps[0]), steps[1..]);
    }
  }

  lemma StepHeld(s: State, step: Step)
    requires Enabled(s, step) && OfWorker(step)
    ensures After(s, step).workers == s.workers && After(s, step).held == s.held
  {
  }

  lemma StuckMeans(s: State)
    requires Inv(s) && s.workers >= 1 && Stuck(s)
    ensures forall t | t in s.tasks :: t == s.held
  {
    hide Inv, CanTake, CanDecode, CanPublish, CanEnd;
    if exists t :: t in s.tasks && t != s.held {
      var o := OldestTask(s.tasks.Keys);
      HeldNewest(s, o);
      OldestMoves(s, o);
      assert false;
    }
  }
}
