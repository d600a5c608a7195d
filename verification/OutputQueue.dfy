/** The output queue of a view: slots packed at the front of a buffer, -1 behind them. */
module OutputQueue {
  import opened Marking
  import opened Sets

  /** As many entries as there are slots (QUEUE_SIZE is MAX_FRAMES). */
  const QUEUE_SIZE: nat := MAX_FRAMES

  // --- queues without duplicates cannot outgrow the slots ---

  function Members(q: seq<Slot>): set<Slot> {
    set s | s in q
  }

  ghost predicate NoDuplicate(q: seq<Slot>) {
    forall i, j | 0 <= i < j < |q| :: q[i] != q[j]
  }

  ghost function Slots(n: nat): (s: set<Slot>)
    requires n <= MAX_FRAMES
    ensures (forall j: Slot :: j in s <==> j < n) && Card(s) == n
  {
    if n == 0 then {} else
      CardDrop(Slots(n - 1) + {n - 1}, n - 1);
      assert Slots(n - 1) + {n - 1} - {n - 1} == Slots(n - 1);
      Slots(n - 1) + {n - 1}
  }

  lemma {:induction false} MembersCard(q: seq<Slot>)
    requires NoDuplicate(q)
    ensures Card(Members(q)) == |q|
  {
    if q == [] {
      assert Members(q) == {};
    } else {
      var k := |q| - 1;
      MembersCard(q[..k]);
      assert Members(q) == Members(q[..k]) + {q[k]};
      CardDrop(Members(q), q[k]);
      assert Members(q) - {q[k]} == Members(q[..k]);
    }
  }

  /** A queue without duplicates that lacks a slot has room for it. */
  lemma RoomFor(q: seq<Slot>, pic: Slot)
    requires NoDuplicate(q) && pic !in q
    ensures |q| < QUEUE_SIZE
  {
    hide Card, Members;
    var all := Slots(MAX_FRAMES);
    MembersCard(q);
    MembersMean(q, pic);
    CardSubset(Members(q), all - {pic});
    CardDrop(all, pic);
  }

  lemma MembersMean(q: seq<Slot>, pic: Slot)
    requires pic !in q
    ensures pic !in Members(q)
  {
  }

  lemma Bounded(q: seq<Slot>)
    requires NoDuplicate(q)
    ensures |q| <= QUEUE_SIZE
  {
    hide Card, Members;
    MembersCard(q);
    CardSubset(Members(q), Slots(MAX_FRAMES));
  }

  function Without(q: seq<Slot>, i: nat): seq<Slot>
    requires i < |q|
  {
    q[..i] + q[i + 1..]
  }

  lemma WithoutMembers(q: seq<Slot>, i: nat)
    requires i < |q| && NoDuplicate(q)
    ensures NoDuplicate(Without(q, i)) && Members(Without(q, i)) == Members(q) - {q[i]}
  {
    var r := Without(q, i);
    forall s | s in Members(q) - {q[i]}
      ensures s in Members(r)
    {
      var k :| 0 <= k < |q| && q[k] == s;
      assert r[if k < i then k else k - 1] == s;
    }
  }

  lemma PushedMembers(q: seq<Slot>, pic: Slot)
    requires NoDuplicate(q) && pic !in q
    ensures NoDuplicate([pic] + q) && Members([pic] + q) == Members(q) + {pic}
  {
  }

  lemma AppendedMembers(q: seq<Slot>, pic: Slot)
    requires NoDuplicate(q) && pic !in q
    ensures NoDuplicate(q + [pic]) && Members(q + [pic]) == Members(q) + {pic}
  {
  }

  class Queue {
    const entries: array<int>
    ghost var contents: seq<Slot>

    ghost predicate Valid()
      reads this, entries
    {
      && entries.Length == QUEUE_SIZE && |contents| <= QUEUE_SIZE
      && (forall i | 0 <= i < |contents| :: entries[i] == contents[i])
      && forall i | |contents| <= i < QUEUE_SIZE :: entries[i] == -1
    }

    constructor ()
      ensures Valid() && contents == [] && fresh(entries)
    {
      entries := new int[QUEUE_SIZE](i => -1);
      contents := [];
    }

    // memmove by one entry to the back.
    method Shift()
      requires entries.Length == QUEUE_SIZE
      modifies entries
      ensures entries[0] == old(entries[0]) && forall j | 0 < j < QUEUE_SIZE :: entries[j] == old(entries[j - 1])
    {
      for i := 0 to QUEUE_SIZE - 1
        invariant forall j | 0 <= j < QUEUE_SIZE - i :: entries[j] == old(entries[j])
        invariant forall j | QUEUE_SIZE - i <= j < QUEUE_SIZE :: entries[j] == old(entries[j - 1])
      {
        entries[QUEUE_SIZE - 1 - i] := entries[QUEUE_SIZE - 2 - i];
      }
    }

    /** queue_push: a picture in at the front; of a full queue the last entry falls out. */
    method Push(pic: Slot)
      requires Valid()
      modifies this, entries
      ensures Valid()
      ensures contents == if |old(contents)| < QUEUE_SIZE then [pic] + old(contents)
                          else [pic] + old(contents)[..QUEUE_SIZE - 1]
    {
      Shift();
      entries[0] := pic;
      contents := [pic] + if |contents| < QUEUE_SIZE then contents else contents[..QUEUE_SIZE - 1];
    }

    /** dequeue_frame: entry i goes and the gap closes. */
    method Dequeue(i: nat)
      requires Valid() && i < |contents|
      modifies this, entries
      ensures Valid() && contents == Without(old(contents), i)
    {
      var k := i;
      while k < QUEUE_SIZE - 1
        invariant i <= k <= QUEUE_SIZE - 1 && contents == old(contents)
        invariant forall j | 0 <= j < i :: entries[j] == old(entries[j])
        invariant forall j | i <= j < k :: entries[j] == old(entries[j + 1])
        invariant forall j | k <= j < QUEUE_SIZE :: entries[j] == old(entries[j])
      {
        entries[k] := entries[k + 1];
        k := k + 1;
      }
      entries[QUEUE_SIZE - 1] := -1;
      contents := Without(contents, i);
    }

    /** queue_len: the entries before the first empty one are all there are. */
    method Length() returns (n: nat)
      requires Valid()
      ensures n == |contents|
    {
      n := 0;
      while n < QUEUE_SIZE && entries[n] >= 0
        invariant n <= |contents|
      {
        n := n + 1;
      }
    }

    // All entries, as a flush gathers them.
    method Gather() returns (all: set<Slot>)
      requires Valid()
      ensures all == Members(contents)
    {
      all := {};
      for i := 0 to QUEUE_SIZE
        invariant all == Members(contents[..if i < |contents| then i else |contents|])
      {
        if entries[i] >= 0 {
          all := all + {entries[i]};
        }
      }
      assert contents[..|contents|] == contents;
    }

    /** The first empty place, as a flush fills it. */
    method Append(pic: Slot)
      requires Valid() && |contents| < QUEUE_SIZE
      modifies this, entries
      ensures Valid() && contents == old(contents) + [pic]
    {
      var j := 0;
      while entries[j] >= 0
        invariant 0 <= j <= |contents| && contents == old(contents) && entries[..] == old(entries[..])
        decreases QUEUE_SIZE - j
      {
        j := j + 1;
      }
      entries[j] := pic;
      contents := contents + [pic];
    }
  }
}
