/** The shared task state as the parser and the workers update it under the lock. */
module WorkerPool {
  import opened Marking
  import opened Tasks
  import opened Sets

  // Pending tasks whose references are complete or written, and that wait for no task in flight.
  function ReadySet(s: State): set<nat> {
    set t | t in s.pending && t in s.tasks && t in s.after
            && s.tasks[t].refs <= s.Usable() && s.after[t] * s.tasks.Keys == {}
  }

  lemma ReadyIsPool(s: State)
    requires Inv(s)
    ensures ReadySet(s) == s.Pool()
  {
    hide Card;
    forall t | t in s.pending
      ensures t in ReadySet(s) <==> t in s.Pool()
    {
      assert ReadsOlder(s, t) && Waits(s, t);
      assert s.Earlier(t) <= s.tasks.Keys;
    }
  }

  lemma InvMeans(s: State)
    requires Inv(s)
    ensures Shape(s) && Chains(s) && Reads(s) && Fair(s)
  {
  }

  /** A task that runs is the oldest one in flight of its picture. */
  lemma RunningFirst(s: State, t: nat)
    requires Inv(s) && t in s.Running()
    ensures t in s.after && s.after[t] == {} == s.Earlier(t)
  {
    hide Reads, Fair;
    assert Waits(s, t);
  }

  lemma PoolReady(s: State)
    requires Inv(s)
    ensures s.ready == s.Pool() && s.chained <= s.pending
  {
  }

  lemma IgnoreReady(s: State, ready: set<nat>, wanted: set<Slot>)
    ensures var r := s.(ready := ready); ReadySet(r) == ReadySet(s) && Terminal(r, wanted) == Terminal(s, wanted)
  {
  }

  /** The new task is ready if it needs not wait for any slice or reference. */
  lemma JoinedReady(s: State, refs: set<Slot>, left: seq<Need>, wanted: set<Slot>)
    requires Shape(s) && Chains(s) && MayAdd(s, refs, left)
    ensures var r := Joined(s, refs, left);
            Added(s, refs, left, wanted) == if s.next in ReadySet(r) then r else Concealed(r, wanted)
  {
    hide Card, Waits;
    var r := Joined(s, refs, left);
    var older := set x | x in s.tasks && s.tasks[x].pic == s.current;
    assert r.after[s.next] == older && older <= r.tasks.Keys;
    assert older != {} ==> older * r.tasks.Keys != {} by {
      assert older * r.tasks.Keys == older;
    }
    assert s.next !in s.ready;
  }

  lemma JoinedIs(s: State, refs: set<Slot>, left: seq<Need>, older: set<nat>)
    requires 0 <= s.current < MAX_FRAMES && older == set x | x in s.tasks && s.tasks[x].pic == s.current
    ensures var t := s.next;
            Joined(s, refs, left).(ready := s.ready) == State(
              s.workers, s.limit, s.tasks[t := Task(s.current, refs, left, false)], s.pending + {t},
              if older == {} then s.chained else s.chained + {t}, s.ready, s.after[t := older], t + 1, t,
              s.current, s.complete, s.frontier, s.ahead[t := Pictures(s.tasks) - {s.current}])
  {
    var joined := Joined(s, refs, left);
    assert joined.after[s.next] == older;
  }

  // --- ending a task ---

  // What the worker has recorded when it looks for the next slice.
  function Cleared(s: State, t: nat): State {
    Left(s, t).(pending := s.pending, chained := s.chained)
  }

  lemma ClearedMeans(s: State, t: nat)
    ensures var r := Cleared(s, t); r.ready == s.ready && r.pending == s.pending && r.chained == s.chained
  {
  }

  lemma NextReady(s: State, t: nat)
    requires Inv(s) && CanEnd(s, t)
    ensures Next(s, t) <= ReadySet(Cleared(s, t)) && Next(s, t) <= s.chained && Card(Next(s, t)) <= 1
  {
    hide Card, Left, Chains;
    NextFew(s, t);
    NextChained(s, t);
    LeftShape(s, t);
    LeftFields(s, t);
    forall i | i in Next(s, t)
      ensures i in ReadySet(Cleared(s, t))
    {
      NextUsable(s, t, i);
    }
  }

  lemma NextUsable(s: State, t: nat, i: nat)
    requires Inv(s) && CanEnd(s, t) && i in Next(s, t)
    ensures i in ReadySet(Cleared(s, t))
  {
    hide Card, Unovertaken;
    NextSame(s, t, i);
    PicturesWithout(s.tasks, t);
    assert ReadsOlder(s, i) && Waits(s, i) && Waits(s, t);
    assert i != t;
    assert s.after[i] - {t} == {};
  }

  /** If any task waited for the one that ends, the next slice of its picture waits for it alone. */
  lemma NextExists(s: State, t: nat, i: nat)
    requires Inv(s) && CanEnd(s, t) && i in s.after && t in s.after[i]
    ensures Next(s, t) != {}
  {
    hide Card, Reads, Fair;
    assert Waits(s, i) && Waits(s, t);
    var later := set j | j in s.tasks && t in s.after[j];
    assert i in later;
    var o := OldestTask(later);
    assert Waits(s, o);
    forall x | x in s.Earlier(o)
      ensures x == t
    {
      assert Waits(s, x);
      assert x < t <==> x in s.Earlier(t);
      assert x > t ==> t in s.Earlier(x) && x in later;
    }
    assert s.after[o] == {t};
    assert o in Next(s, t);
  }

  /** The next slice starts: what is ready then is the pool again. */
  lemma EndedReady(s: State, t: nat, wanted: set<Slot>, m: State)
    requires Inv(s) && CanEnd(s, t)
    requires var e := Ended(s, t, wanted);
             m == e.(pending := s.pending, chained := s.chained, ready := m.ready) && m.ready == ReadySet(m)
    ensures m.ready - Next(s, t) == Ended(s, t, wanted).ready
  {
    hide Inv, Ended, CanEnd, Next;
    var e := Ended(s, t, wanted);
    EndedInv(s, t, wanted);
    ReadyIsPool(e);
    EndedMeans(s, t, wanted);
    assert ReadySet(m) - Next(s, t) == ReadySet(e);
  }

  lemma EndedMeans(s: State, t: nat, wanted: set<Slot>)
    requires Inv(s) && CanEnd(s, t)
    ensures var e := Ended(s, t, wanted);
            && e.pending == s.pending - Next(s, t) && e.chained == s.chained - Next(s, t) && e.ready == s.ready
    ensures Ended(s, t, wanted).Pool() == s.ready
  {
    hide Reads, Fair, Waits, Next;
    PoolReady(s);
    NextChained(s, t);
  }

  lemma NextWaits(s: State, t: nat)
    requires Inv(s) && CanEnd(s, t)
    ensures Next(s, t) != {} <==> exists i :: i in s.after && t in s.after[i]
  {
    hide Inv, CanEnd;
    if i :| i in s.after && t in s.after[i] {
      NextExists(s, t, i);
    }
  }

  lemma OneNext(next: set<nat>, i: nat)
    requires Card(next) <= 1 && i in next
    ensures next == {i}
  {
    assert Card(next - {i}) == Card(next) - 1;
  }

  // What is concealed does not depend on which tasks are pending.
  lemma IgnoreLists(s: State, m: State, wanted: set<Slot>)
    requires m == s.(pending := m.pending, chained := m.chained, ready := m.ready)
    ensures Terminal(m, wanted) == Terminal(s, wanted)
  {
  }

  lemma ClearedReady(s: State, t: nat, wanted: set<Slot>, m: State, q: State)
    requires m == Cleared(s, t).(ready := m.ready)
        && q == m.(complete := m.complete + Terminal(m, wanted), ready := q.ready)
    requires q.ready == if Terminal(m, wanted) != {} then ReadySet(q) else ReadySet(Cleared(s, t))
    ensures q.ready == ReadySet(q)
  {
    hide Left, Terminal;
    if Terminal(m, wanted) == {} {
      assert m.complete + Terminal(m, wanted) == m.complete;
    }
  }

  lemma Finishes(s: State, t: nat, wanted: set<Slot>, q: State)
    requires Inv(s) && CanEnd(s, t) && q == Ended(s, t, wanted).(pending := s.pending, chained := s.chained,
        ready := q.ready)
    requires q.ready == ReadySet(q) || (Next(s, t) == {} && q.ready == s.ready)
    ensures var n := Next(s, t);
            q.(pending := q.pending - n, chained := q.chained - n, ready := q.ready - n) == Ended(s, t, wanted)
  {
    hide Inv, CanEnd, Next, ReadySet, Ended;
    EndedMeans(s, t, wanted);
    if q.ready == ReadySet(q) {
      EndedReady(s, t, wanted, q);
    } else {
      assert q.ready - Next(s, t) == s.ready;
    }
  }

  // The tasks outside of a set that wait for one alone, and whether any waits for it.
  ghost function Freed(after: map<nat, set<nat>>, t: nat, rest: set<nat>): set<nat> {
    set i | i in after && i != t && i !in rest && after[i] == {t}
  }

  ghost predicate Waited(after: map<nat, set<nat>>, t: nat, rest: set<nat>) {
    exists i :: i in after && i != t && i !in rest && t in after[i]
  }

  lemma FreedNone(after: map<nat, set<nat>>, t: nat)
    ensures Freed(after, t, after.Keys - {t}) == {} && !Waited(after, t, after.Keys - {t})
  {
  }

  lemma FreedAll(after: map<nat, set<nat>>, t: nat)
    ensures Freed(after, t, {}) == set i | i in after && i != t && after[i] == {t}
    ensures Waited(after, t, {}) <==> exists i :: i in after && i != t && t in after[i]
  {
  }

  lemma FreedStep(after: map<nat, set<nat>>, t: nat, rest: set<nat>, i: nat)
    requires rest <= after.Keys - {t} && i in rest
    ensures Waited(after, t, rest - {i}) == (Waited(after, t, rest) || t in after[i])
    ensures Freed(after, t, rest - {i}) ==
            if t in after[i] && after[i] - {t} == {} then Freed(after, t, rest) + {i} else Freed(after, t, rest)
  {
    assert t in after[i] && after[i] - {t} == {} <==> after[i] == {t};
  }

  class Scheduler {
    var tasks: map<nat, Task>
    var pending: set<nat>
    var chained: set<nat>
    var ready: set<nat>
    var after: map<nat, set<nat>>
    var next: nat
    var held: int
    var current: int
    var complete: set<Slot>
    var frontier: map<Slot, int>
    const workers: nat
    const limit: nat
    ghost var ahead: map<nat, set<Slot>>

    ghost function View(): State
      reads this
    {
      State(workers, limit, tasks, pending, chained, ready, after, next, held, current, complete, frontier, ahead)
    }

    ghost predicate Valid()
      reads this
    {
      Inv(View())
    }

    constructor (workers: nat, limit: nat)
      requires limit <= workers
      ensures Valid() && this.workers == workers && this.limit == limit && tasks == map[]
    {
      this.workers, this.limit := workers, limit;
      tasks, pending, chained, ready, after := map[], {}, {}, {}, map[];
      next, held, current, complete, frontier, ahead := 0, -1, -1, {}, map[], map[];
    }

    /** ready_tasks */
    method ReadyTasks() returns (r: set<nat>)
      ensures r == ReadySet(View())
    {
      r := {};
      var usable := complete + Pictures(tasks);
      var rest := pending;
      while rest != {}
        invariant rest <= pending && r == ReadySet(View()) * (pending - rest)
        decreases rest
      {
        var t :| t in rest;
        if t in tasks && t in after && tasks[t].refs <= usable && after[t] * tasks.Keys == {} {
          r := r + {t};
        }
        rest := rest - {t};
      }
    }

    /** oldest_task */
    method OldestOf(some: set<nat>) returns (t: nat)
      requires some != {}
      ensures IsOldest(some, t)
    {
      t :| t in some;
      var rest := some - {t};
      while rest != {}
        invariant rest <= some && t in some && forall x | x in some && x !in rest :: t <= x
        decreases rest
      {
        var u :| u in rest;
        if u < t {
          t := u;
        }
        rest := rest - {u};
      }
    }

    // The pictures that nobody will complete, among those read and wanted.
    method TerminalPictures(wanted: set<Slot>) returns (terminal: set<Slot>)
      ensures terminal == Terminal(View(), wanted)
    {
      var depended: set<Slot> := {};
      var rest := tasks.Keys;
      while rest != {}
        invariant rest <= tasks.Keys && depended == set t, p | t in tasks.Keys - rest && p in tasks[t].refs :: p
        decreases rest
      {
        var t :| t in rest;
        depended := depended + tasks[t].refs;
        rest := rest - {t};
      }
      var usable := complete + Pictures(tasks);
      terminal := set p | p in depended + wanted && p !in usable && p != current;
    }

    /** release_terminal_task_dependencies: such pictures are concealed, and tasks may get ready. */
    method ReleaseTerminal(wanted: set<Slot>) returns (concealed: bool)
      modifies this`complete, this`ready
      ensures concealed <==> Terminal(old(View()), wanted) != {}
      ensures complete == old(complete) + Terminal(old(View()), wanted)
      ensures ready == if concealed then ReadySet(View()) else old(ready)
    {
      var terminal := TerminalPictures(wanted);
      concealed := terminal != {};
      if concealed {
        complete := complete + terminal;
        ready := ReadyTasks();
      }
    }

    /** The held task learns where its slice ends. */
    method ReleaseHeld()
      requires Valid()
      modifies this`held
      ensures Valid() && View() == Released(old(View()))
    {
      hide Inv;
      ReleasedInv(View());
      held := -1;
    }

    /** A new picture takes a slot. */
    method BeginPicture(slot: Slot)
      requires Valid() && slot !in View().Depended()
      modifies this`current, this`complete, this`frontier
      ensures Valid() && View() == Begun(old(View()), slot)
    {
      hide Inv;
      BegunInv(View(), slot);
      current, complete, frontier := slot, complete - {slot}, frontier[slot := 0];
    }

    // The tasks in flight of a picture.
    method TasksOf(pic: int) returns (some: set<nat>)
      ensures some == set x | x in tasks && tasks[x].pic == pic
    {
      some := {};
      var rest := tasks.Keys;
      while rest != {}
        invariant rest <= tasks.Keys && some == set x | x in tasks && x !in rest && tasks[x].pic == pic
        decreases rest
      {
        var x :| x in rest;
        if tasks[x].pic == pic {
          some := some + {x};
        }
        rest := rest - {x};
      }
    }

    // A slice becomes a task that waits for the older ones of its picture.
    method Join(refs: set<Slot>, left: seq<Need>)
      requires 0 <= current < MAX_FRAMES
      modifies this
      ensures View() == Joined(old(View()), refs, left).(ready := old(ready))
    {
      hide Pictures, Joined;
      var t := next;
      var older := TasksOf(current);
      JoinedIs(View(), refs, left, older);
      tasks, ahead := tasks[t := Task(current, refs, left, false)], ahead[t := Pictures(tasks) - {current}];
      after, pending, chained := after[t := older], pending + {t}, if older == {} then chained else chained + {t};
      next, held := t + 1, t;
    }

    /** The end of parse_slice_layer_without_partitioning: the slice is handed to the workers. */
    method AddSlice(refs: set<Slot>, left: seq<Need>, wanted: set<Slot>)
      requires Valid() && MayAdd(View(), refs, left)
      modifies this
      ensures Valid() && View() == Added(old(View()), refs, left, wanted)
    {
      hide Inv, ReadySet, Joined, Added, Terminal;
      ghost var s := View();
      AddedInv(s, refs, left, wanted);
      ReadyIsPool(Added(s, refs, left, wanted));
      PoolReady(Added(s, refs, left, wanted));
      var t := next;
      assert Shape(s) && Chains(s) by {
        InvMeans(s);
      }
      JoinedReady(s, refs, left, wanted);
      Join(refs, left);
      ghost var r := Joined(s, refs, left);
      IgnoreReady(r, s.ready, wanted);
      ready := ReadyTasks();
      IgnoreReady(r, ready, wanted);
      if t !in ready {
        var concealed := ReleaseTerminal(wanted);
        IgnoreReady(Concealed(r, wanted), ready, wanted);
      }
    }

    /** What a worker without a next slice does: it takes the oldest task of the pool, if there is any. */
    method TakeTask() returns (taken: bool, t: nat)
      requires Valid() && Card(View().Running()) < workers
      modifies this`pending, this`ready, this`chained
      ensures Valid() && (taken <==> old(pending - chained) != {})
      ensures if taken then CanTake(old(View()), t) && View() == Started(old(View()), t) else View() == old(View())
    {
      hide Inv, Card;
      var pool := pending - chained;
      PoolReady(View());
      taken, t := false, 0;
      if pool != {} {
        t := OldestOf(pool);
        if t in ready {
          taken := true;
          StartedInv(View(), t);
          assert chained - {t} == chained;
          pending, ready, chained := pending - {t}, ready - {t}, chained - {t};
        }
      }
    }

    // The tasks that wait for one wait for it no longer. Those freed waited for it alone.
    method ClearAfter(t: nat) returns (freed: set<nat>, waiting: bool)
      modifies this`after
      ensures after == map i | i in old(after) && i != t :: old(after)[i] - {t}
      ensures freed == set i | i in old(after) && i != t && old(after)[i] == {t}
      ensures waiting <==> exists i :: i in old(after) && i != t && t in old(after)[i]
    {
      hide Freed, Waited;
      ghost var was := after;
      freed, waiting := {}, false;
      FreedNone(was, t);
      after := after - {t};
      var rest := after.Keys;
      while rest != {}
        invariant rest <= after.Keys == was.Keys - {t}
        invariant forall i | i in after :: after[i] == if i in rest then was[i] else was[i] - {t}
        invariant freed == Freed(was, t, rest) && waiting == Waited(was, t, rest)
        decreases rest
      {
        var i :| i in rest;
        FreedStep(was, t, rest, i);
        if t in after[i] {
          waiting := true;
          after := after[i := after[i] - {t}];
          if after[i] == {} {
            freed := freed + {i};
          }
        }
        rest := rest - {i};
      }
      FreedAll(was, t);
    }

    // A worker clears its task and tells the ones that waited for it.
    method ClearTask(t: nat) returns (freed: set<nat>, waiting: bool)
      requires Valid() && CanEnd(View(), t)
      modifies this`tasks, this`after, this`ahead
      ensures View() == Cleared(old(View()), t) && freed == Next(old(View()), t)
      ensures waiting <==> exists i :: i in old(after) && t in old(after)[i]
    {
      hide Inv;
      RunningFirst(View(), t);
      tasks := tasks - {t};
      ahead := map i | i in ahead && i != t :: ahead[i] * Pictures(tasks);
      freed, waiting := ClearAfter(t);
    }

    // The worker looks for the next slice of the picture, which is ready if there is one.
    method PickNext(t: nat, freed: set<nat>, waiting: bool, ghost s: State) returns (chain: int)
      requires Inv(s) && CanEnd(s, t) && View() == Cleared(s, t) && freed == Next(s, t)
      requires waiting <==> exists i :: i in s.after && t in s.after[i]
      modifies this`ready, this`chained
      ensures chained == s.chained && ready == if waiting then ReadySet(Cleared(s, t)) else s.ready
      ensures if waiting then chain >= 0 && Next(s, t) == {chain} else chain == -1 && Next(s, t) == {}
    {
      hide Inv, ReadySet, Next, Left, Card, CanEnd;
      chain := -1;
      ClearedMeans(s, t);
      NextReady(s, t);
      NextWaits(s, t);
      if waiting {
        ready := ReadyTasks();
        IgnoreReady(Cleared(s, t), s.ready, {});
      }
      if waiting && ready != {} {
        var next := freed * chained;
        if next * ready != {} {
          chain := OldestOf(next * ready);
          OneNext(Next(s, t), chain);
        }
        chained := chained - (next - ready);
      } else {
        chained := chained - freed;
      }
    }

    // What is left without a writer is concealed, and what is ready is up to date if a task waited.
    method Settle(t: nat, wanted: set<Slot>, waiting: bool, ghost s: State)
      requires View() == Cleared(s, t).(ready := ready)
      requires ready == if waiting then ReadySet(Cleared(s, t)) else s.ready
      modifies this`complete, this`ready
      ensures View() == Ended(s, t, wanted).(pending := s.pending, chained := s.chained, ready := ready)
      ensures ready == ReadySet(View()) || (!waiting && ready == s.ready)
    {
      hide ReadySet, Left, Terminal;
      ghost var m := View();
      ClearedMeans(s, t);
      IgnoreLists(Left(s, t), m, wanted);
      var concealed := ReleaseTerminal(wanted);
      if waiting || concealed {
        ClearedReady(s, t, wanted, m, View());
      }
    }

    /**
     * The end of a task, in the order of the code: the next slice of the picture, if any waits, is ready and
     * goes on in this worker, and pictures left without a writer are concealed.
     */
    method EndTask(t: nat, full: bool, wanted: set<Slot>) returns (chain: int)
      requires Valid() && CanEnd(View(), t)
      modifies this
      ensures Valid() && View() == Ended(old(View()), t, wanted)
      ensures if chain >= 0 then Next(old(View()), t) == {chain} else Next(old(View()), t) == {}
    {
      hide Inv, ReadySet, Next, Left, Card, CanEnd, Cleared, Ended;
      ghost var s := View();
      EndedInv(s, t, wanted);
      if full {
        ReadyIsPool(s);
        PoolReady(s);
        ready := ReadyTasks();
      }
      var freed, waiting := ClearTask(t);
      chain := PickNext(t, freed, waiting, s);
      ClearedMeans(s, t);
      Settle(t, wanted, waiting, s);
      Finishes(s, t, wanted, View());
      if chain >= 0 {
        pending, ready, chained := pending - {chain}, ready - {chain}, chained - {chain};
      } else {
        assert pending - {} == pending && ready - {} == ready && chained - {} == chained;
      }
    }
  }
}
