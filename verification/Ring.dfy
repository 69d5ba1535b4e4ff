/**
 NVMe queue pairs: commands are fetched from the submission ring, completions go to the completion
 ring with a phase tag, and the host finds new completions by the tag alone (section 4.6 of NVMe 1.4).
 */
module Ring {
  import opened Common
  import opened Layout

  datatype Command = Command(cid: nat, opcode: nat, args: seq<nat>)

  /** A completion; bit 0 of the status is the phase tag. */
  datatype Completion = Completion(cid: nat, result: nat, sqHead: nat, status: nat)

  predicate Tagged(c: Completion) { c.status % 2 == 1 }

  function WithTag(status: nat, phase: bool): (r: nat)
    ensures r / 2 == status / 2 && (r % 2 == 1 <==> phase)
  {
    status - status % 2 + (if phase then 1 else 0)
  }

  // ---- the completion ring and a polling host

  /** Ring memory, the controller's tail and phase. */
  datatype Cq = Cq(slots: seq<Completion>, tail: nat, phase: bool)
  {
    predicate Shape() { 0 < |slots| && tail < |slots| }
  }

  /** Posting one completion. */
  function Post(q: Cq, c: Completion): (r: Cq)
    requires q.Shape()
    ensures r.Shape() && |r.slots| == |q.slots|
  {
    var slots := q.slots[q.tail := c.(status := WithTag(c.status, q.phase))];
    if q.tail + 1 == |slots| then Cq(slots, 0, !q.phase) else Cq(slots, q.tail + 1, q.phase)
  }

  /** The host's side: next slot to look at and the tag it expects there. */
  datatype Host = Host(head: nat, phase: bool)

  predicate HasNew(q: Cq, h: Host)
    requires h.head < |q.slots|
  {
    Tagged(q.slots[h.head]) == h.phase
  }

  function Advance(h: Host, size: nat): Host {
    if h.head + 1 == size then Host(0, !h.phase) else Host(h.head + 1, h.phase)
  }

  /** Everything posted so far and everything the host has taken so far. */
  datatype World = World(q: Cq, h: Host, posted: seq<Completion>, taken: seq<Completion>)

  /** A fresh ring: memory zeroed, both sides at slot 0 with phase 1. */
  predicate Start(w: World) {
    && 0 < |w.q.slots| && w.q.tail == 0 && w.q.phase && w.h == Host(0, true) && w.posted == [] && w.taken == []
    && forall i :: 0 <= i < |w.q.slots| ==> !Tagged(w.q.slots[i])
  }

  datatype Event = Posting(c: Completion) | Polling

  function Happen(w: World, e: Event): World
    requires w.q.Shape() && w.h.head < |w.q.slots|
  {
    match e
    case Posting(c) =>
      w.(q := Post(w.q, c), posted := w.posted + [c.(status := WithTag(c.status, w.q.phase))])
    case Polling =>
      if HasNew(w.q, w.h) then w.(h := Advance(w.h, |w.q.slots|), taken := w.taken + [w.q.slots[w.h.head]]) else w
  }

  /** Slot of the `n`-th completion in a ring of `size` slots. */
  function Slot(n: nat, size: nat): (r: nat)
    requires 0 < size
    ensures r < size
  {
    n % size
  }

  /** Tag of the `n`-th completion in a ring of `size` slots. */
  predicate TagOf(n: nat, size: nat)
    requires 0 < size
  {
    (n / size) % 2 == 0
  }

  /** Position and tag of both sides are functions of how much went by; unread slots hold the unread completions. */
  ghost predicate Synchronous(w: World) {
    var size := |w.q.slots|;
    var n, r := |w.posted|, |w.taken|;
    && 0 < size && r <= n <= r + size
    && w.q.tail == Slot(n, size) && w.q.phase == TagOf(n, size)
    && w.h.head == Slot(r, size) && w.h.phase == TagOf(r, size)
    && w.taken == w.posted[..r]
    && (forall i :: r <= i < n ==> w.q.slots[Slot(i, size)] == w.posted[i])
    && (forall i :: 0 <= i < n ==> Tagged(w.posted[i]) == TagOf(i, size))
    && (forall i :: n <= i < r + size ==> Tagged(w.q.slots[Slot(i, size)]) != TagOf(i, size))
  }

  lemma NextPosition(n: nat, size: nat)
    requires 0 < size
    ensures (n + 1) % size == if n % size + 1 == size then 0 else n % size + 1
    ensures (n + 1) / size == if n % size + 1 == size then n / size + 1 else n / size
  {
    var q, r := n / size, n % size;
    Parts(n, size);
    if r + 1 == size {
      assert n + 1 == (q + 1) * size;
      DivModUnique(n + 1, size, q + 1, 0);
    } else {
      DivModUnique(n + 1, size, q, r + 1);
    }
  }

  lemma NextSlotAndTag(n: nat, size: nat)
    requires 0 < size
    ensures Slot(n + 1, size) == if Slot(n, size) + 1 == size then 0 else Slot(n, size) + 1
    ensures TagOf(n + 1, size) == if Slot(n, size) + 1 == size then !TagOf(n, size) else TagOf(n, size)
  {
    NextPosition(n, size);
  }

  lemma TagFlips(n: nat, size: nat)
    requires 0 < size
    ensures TagOf(n + size, size) == !TagOf(n, size) && Slot(n + size, size) == Slot(n, size)
  {
    var q, r := n / size, n % size;
    Parts(n, size);
    assert n + size == (q + 1) * size + r;
    DivModUnique(n + size, size, q + 1, r);
  }

  /** Different completions less than a ring apart sit in different slots. */
  lemma SlotsDiffer(i: nat, j: nat, size: nat)
    requires 0 < size && i < j < i + size
    ensures Slot(i, size) != Slot(j, size)
  {
    Parts(i, size);
    Parts(j, size);
    if i / size < j / size {
      MulMono(i / size + 1, j / size, size);
    } else {
      MulMono(j / size, i / size, size);
    }
  }

  lemma StartSynchronous(w: World)
    requires Start(w)
    ensures Synchronous(w)
  {
    forall i | 0 <= i < |w.q.slots| ensures i % |w.q.slots| == i && i / |w.q.slots| == 0 {
      DivModUnique(i, |w.q.slots|, 0, i);
    }
  }

  lemma PostingSynchronous(w: World, c: Completion)
    requires Synchronous(w) && |w.posted| < |w.taken| + |w.q.slots|
    ensures Synchronous(Happen(w, Posting(c)))
  {
    hide Slot, TagOf, Tagged;
    var size, n, r := |w.q.slots|, |w.posted|, |w.taken|;
    var w' := Happen(w, Posting(c));
    NextSlotAndTag(n, size);
    TagIsTag(c, w.q.phase);
    forall i | r <= i < r + size && i != n ensures Slot(i, size) != Slot(n, size) {
      if i < n { SlotsDiffer(i, n, size); } else { SlotsDiffer(n, i, size); }
    }
  }

  /**
   The controller never looks at the host's head, so posting keeps the two sides in step exactly if a slot is free.
   */
  lemma PostingKeepsIff(w: World, c: Completion)
    requires Synchronous(w)
    ensures Synchronous(Happen(w, Posting(c))) <==> |w.posted| < |w.taken| + |w.q.slots|
  {
    if |w.posted| < |w.taken| + |w.q.slots| { PostingSynchronous(w, c); }
  }

  lemma TagIsTag(c: Completion, phase: bool)
    ensures Tagged(c.(status := WithTag(c.status, phase))) == phase
  {
  }

  /**
   While the host has not fallen a whole ring behind, a poll finds something exactly if something is unread,
   and what it takes is the oldest unread completion.
   */
  lemma PollingSynchronous(w: World)
    requires Synchronous(w)
    ensures HasNew(w.q, w.h) <==> |w.taken| < |w.posted|
    ensures HasNew(w.q, w.h) ==> w.q.slots[w.h.head] == w.posted[|w.taken|]
    ensures Synchronous(Happen(w, Polling))
  {
    hide Slot, TagOf, Tagged;
    var size, n, r := |w.q.slots|, |w.posted|, |w.taken|;
    NextSlotAndTag(r, size);
    TagFlips(r, size);
    if r < n {
      assert w.q.slots[Slot(r, size)] == w.posted[r];
      var w' := Happen(w, Polling);
      assert w'.taken == w.posted[..r + 1];
      assert Tagged(w'.q.slots[Slot(r + size, size)]) != TagOf(r + size, size);
    } else {
      assert Tagged(w.q.slots[Slot(r, size)]) != TagOf(r, size);
    }
  }

  /** The events of a run never put more unread completions into the ring than it has slots. */
  ghost predicate NeverOverrun(w: World, events: seq<Event>)
    requires Synchronous(w)
    decreases events
  {
    events == [] ||
    ((events[0].Posting? ==> |w.posted| < |w.taken| + |w.q.slots|)
     && (EventSynchronous(w, events[0]); NeverOverrun(Happen(w, events[0]), events[1..])))
  }

  lemma EventSynchronous(w: World, e: Event)
    requires Synchronous(w) && (e.Posting? ==> |w.posted| < |w.taken| + |w.q.slots|)
    ensures Synchronous(Happen(w, e))
  {
    match e
    case Posting(c) => PostingSynchronous(w, c);
    case Polling => PollingSynchronous(w);
  }

  ghost function HappenAll(w: World, events: seq<Event>): World
    requires Synchronous(w) && NeverOverrun(w, events)
    decreases events
  {
    if events == [] then w
    else EventSynchronous(w, events[0]); HappenAll(Happen(w, events[0]), events[1..])
  }

  /**
   Exactly once, in order: over every interleaving of postings and polls that never overruns the ring, from a fresh
   ring (see StartSynchronous) or any later point, the host has taken a prefix of what was posted, and the n-th
   completion carried tag 1 iff n / size is even.
   */
  lemma {:induction false} ExactlyOnceInOrder(w: World, events: seq<Event>)
    requires Synchronous(w) && NeverOverrun(w, events)
    ensures var end := HappenAll(w, events);
            && Synchronous(end)
            && end.taken <= end.posted
            && forall n :: 0 <= n < |end.posted| ==> Tagged(end.posted[n]) == TagOf(n, |end.q.slots|)
    decreases events
  {
    hide Happen;
    if events != [] {
      EventSynchronous(w, events[0]);
      ExactlyOnceInOrder(Happen(w, events[0]), events[1..]);
    }
  }

  /** A host that keeps polling gets everything: as many polls as completions are unread, and nothing is left. */
  lemma {:induction false} PollingDrains(w: World, k: nat)
    requires Synchronous(w) && k == |w.posted| - |w.taken|
    ensures NeverOverrun(w, Polls(k))
    ensures HappenAll(w, Polls(k)).taken == w.posted == HappenAll(w, Polls(k)).posted
    decreases k
  {
    hide Synchronous, HasNew;
    SynchronousShape(w);
    PollingSynchronous(w);
    if k == 0 {
      SynchronousTaken(w);
    } else {
      assert Polls(k)[0] == Polling && Polls(k)[1..] == Polls(k - 1);
      PollingDrains(Happen(w, Polling), k - 1);
    }
  }

  function Polls(k: nat): (r: seq<Event>)
    ensures |r| == k
  {
    seq(k, _ => Polling)
  }

  lemma SynchronousTaken(w: World)
    requires Synchronous(w)
    ensures w.taken == w.posted[..|w.taken|]
  {
  }

  /**
   Posting into a full ring overwrites the oldest unread
   completion with the opposite tag, and the host sees nothing new although a whole ring is unread.
   */
  lemma OverrunHidesEverything(w: World, c: Completion)
    requires Synchronous(w) && |w.posted| == |w.taken| + |w.q.slots|
    ensures var w' := Happen(w, Posting(c));
            && !HasNew(w'.q, w'.h) && |w'.taken| < |w'.posted| && !Synchronous(w')
            && w'.q.slots[w'.h.head] == w'.posted[|w.posted|]
  {
    hide Slot, TagOf, Tagged;
    TagFlips(|w.taken|, |w.q.slots|);
    TagIsTag(c, w.q.phase);
  }

  // ---- processing a queue pair

  datatype Pair = Pair(sqHead: nat, sqTail: nat, cq: Cq)

  /** How many commands are waiting in a submission ring of `size` slots. */
  function Waiting(head: nat, tail: nat, size: nat): (n: nat)
    requires head < size && tail < size
    ensures n < size && (n == 0 <==> head == tail)
  {
    if head <= tail then tail - head else tail + size - head
  }

  function NextSlot(i: nat, size: nat): (r: nat)
    requires i < size
    ensures r < size && r == (i + 1) % size
  {
    NextPosition(i, size);
    DivModUnique(i, size, 0, i);
    if i + 1 == size then 0 else i + 1
  }

  /** The waiting commands, oldest first. */
  function Pending(sq: seq<Command>, head: nat, tail: nat): (r: seq<Command>)
    requires head < |sq| && tail < |sq|
    ensures |r| == Waiting(head, tail, |sq|)
    decreases Waiting(head, tail, |sq|)
  {
    if head == tail then [] else [sq[head]] + Pending(sq, NextSlot(head, |sq|), tail)
  }

  /** What the controller answers to the `n`-th command it executes, before queue fields are filled in. */
  type Executor = (nat, Command) -> Completion

  /** process_queue_commands from `done` executed commands on; SQ head and status tag are filled in. */
  function Process(p: Pair, sq: seq<Command>, exec: Executor, done: nat): (r: Pair)
    requires p.sqHead < |sq| && p.sqTail < |sq| && p.cq.Shape()
    ensures r.cq.Shape() && |r.cq.slots| == |p.cq.slots| && r.sqTail == p.sqTail && r.sqHead == p.sqTail
    decreases Waiting(p.sqHead, p.sqTail, |sq|)
  {
    if p.sqHead == p.sqTail then p
    else
      var next := NextSlot(p.sqHead, |sq|);
      var c := exec(done, sq[p.sqHead]).(sqHead := next);
      Process(Pair(next, p.sqTail, Post(p.cq, c)), sq, exec, done + 1)
  }

  /** The completions owed for `cmds`, the first of them fetched from slot `head`. */
  function Owed(cmds: seq<Command>, head: nat, size: nat, exec: Executor, done: nat): (r: seq<Completion>)
    requires head < size
    ensures |r| == |cmds|
    decreases cmds
  {
    if cmds == [] then []
    else [exec(done, cmds[0]).(sqHead := NextSlot(head, size))]
         + Owed(cmds[1..], NextSlot(head, size), size, exec, done + 1)
  }

  function PostAll(q: Cq, cs: seq<Completion>): (r: Cq)
    requires q.Shape()
    ensures r.Shape() && |r.slots| == |q.slots|
    decreases cs
  {
    if cs == [] then q else PostAll(Post(q, cs[0]), cs[1..])
  }

  /**
   One call executes exactly the waiting commands, each once, in ring order, and posts one completion for each, in that
   order.
   */
  lemma {:induction false} ProcessPostsInOrder(p: Pair, sq: seq<Command>, exec: Executor, done: nat)
    requires p.sqHead < |sq| && p.sqTail < |sq| && p.cq.Shape()
    ensures Process(p, sq, exec, done).cq
            == PostAll(p.cq, Owed(Pending(sq, p.sqHead, p.sqTail), p.sqHead, |sq|, exec, done))
    decreases Waiting(p.sqHead, p.sqTail, |sq|)
  {
    hide Post;
    if p.sqHead != p.sqTail {
      var next := NextSlot(p.sqHead, |sq|);
      var c := exec(done, sq[p.sqHead]).(sqHead := next);
      var p' := Pair(next, p.sqTail, Post(p.cq, c));
      ProcessPostsInOrder(p', sq, exec, done + 1);
      var cmds := Pending(sq, p.sqHead, p.sqTail);
      assert cmds[0] == sq[p.sqHead] && cmds[1..] == Pending(sq, next, p.sqTail);
      var owed := Owed(cmds, p.sqHead, |sq|, exec, done);
      assert owed[0] == c && owed[1..] == Owed(cmds[1..], next, |sq|, exec, done + 1);
    }
  }

  /** The `i`-th command of a call is the one `i` slots behind the head, round the ring. */
  lemma {:induction false} PendingAt(sq: seq<Command>, head: nat, tail: nat, i: nat)
    requires head < |sq| && tail < |sq| && i < Waiting(head, tail, |sq|)
    ensures Pending(sq, head, tail)[i] == sq[(head + i) % |sq|]
    decreases i
  {
    if i == 0 {
      DivModUnique(head, |sq|, 0, head);
    } else {
      PendingAt(sq, NextSlot(head, |sq|), tail, i - 1);
      RoundTheRing(head, i, |sq|);
    }
  }

  lemma RoundTheRing(head: nat, i: nat, size: nat)
    requires head < size && 0 < i
    ensures (NextSlot(head, size) + (i - 1)) % size == (head + i) % size
  {
    if head + 1 == size {
      var k := i - 1;
      Parts(k, size);
      assert head + i == (k / size + 1) * size + k % size;
      DivModUnique(head + i, size, k / size + 1, k % size);
    }
  }

  /** Its completion is what its execution answers, and reports the slot behind it as the head of the ring. */
  lemma {:induction false} OwedAt(cmds: seq<Command>, head: nat, size: nat, exec: Executor, done: nat, i: nat)
    requires head < size && i < |cmds|
    ensures Owed(cmds, head, size, exec, done)[i] == exec(done + i, cmds[i]).(sqHead := (head + i + 1) % size)
    decreases i
  {
    if 0 < i {
      OwedAt(cmds[1..], NextSlot(head, size), size, exec, done + 1, i - 1);
      RoundTheRing(head, i + 1, size);
    }
  }

  /** Posting a batch is a run of posting events. */
  function Postings(cs: seq<Completion>): (r: seq<Event>)
    ensures |r| == |cs| && forall i :: 0 <= i < |cs| ==> r[i] == Posting(cs[i])
  {
    seq(|cs|, i requires 0 <= i < |cs| => Posting(cs[i]))
  }

  /**
   A call whose completions fit into the free part of the ring leaves it synchronous, with its completions posted in
   order.
   */
  lemma {:induction false} PostAllRuns(w: World, cs: seq<Completion>)
    requires Synchronous(w) && |w.posted| + |cs| <= |w.taken| + |w.q.slots|
    ensures NeverOverrun(w, Postings(cs))
    ensures HappenAll(w, Postings(cs)).q == PostAll(w.q, cs) && HappenAll(w, Postings(cs)).h == w.h
    ensures HappenAll(w, Postings(cs)).posted == w.posted + Stamped(cs, |w.posted|, |w.q.slots|)
    ensures HappenAll(w, Postings(cs)).taken == w.taken
    decreases cs
  {
    hide Synchronous, Post;
    SynchronousShape(w);
    if cs == [] {
      assert w.posted + [] == w.posted;
    } else {
      var es := Postings(cs);
      assert es[0] == Posting(cs[0]) && es[1..] == Postings(cs[1..]);
      EventSynchronous(w, es[0]);
      var w' := Happen(w, es[0]);
      PostAllRuns(w', cs[1..]);
      var first := cs[0].(status := WithTag(cs[0].status, TagOf(|w.posted|, |w.q.slots|)));
      assert w'.posted + Stamped(cs[1..], |w.posted| + 1, |w.q.slots|)
          == w.posted + ([first] + Stamped(cs[1..], |w.posted| + 1, |w.q.slots|));
    }
  }

  /** `cs` as posted: the `n`-th completion of the queue, the next one, and so on. */
  function Stamped(cs: seq<Completion>, n: nat, size: nat): (r: seq<Completion>)
    requires 0 < size
    ensures |r| == |cs|
    decreases cs
  {
    if cs == [] then []
    else [cs[0].(status := WithTag(cs[0].status, TagOf(n, size)))] + Stamped(cs[1..], n + 1, size)
  }

  lemma SynchronousShape(w: World)
    requires Synchronous(w)
    ensures w.q.Shape() && w.h.head < |w.q.slots|
    ensures w.q.phase == TagOf(|w.posted|, |w.q.slots|)
  {
  }

  /** A doorbell value beyond the ring is never met: no number of steps takes the head there. */
  lemma {:induction false} OutOfRangeTailNeverMet(head: nat, tail: nat, size: nat, steps: nat)
    requires head < size <= tail
    ensures HeadAfter(head, size, steps) != tail
    decreases steps
  {
    if steps != 0 { OutOfRangeTailNeverMet(NextSlot(head, size), tail, size, steps - 1); }
  }

  function HeadAfter(head: nat, size: nat, steps: nat): nat
    requires head < size
    decreases steps
  {
    if steps == 0 then head else HeadAfter(NextSlot(head, size), size, steps - 1)
  }

  // ---- the controller's queue in place

  class QueuePair {
    const sq: array<Command>
    const cq: array<Completion>
    var valid: bool
    var sqHead: nat
    var sqTail: nat
    var cqTail: nat
    var cqPhase: bool

    ghost function View(): Pair
      reads this, cq
    {
      Pair(sqHead, sqTail, Cq(cq[..], cqTail, cqPhase))
    }

    ghost predicate Valid()
      reads this, cq
    {
      sqHead < sq.Length && sqTail < sq.Length && View().cq.Shape()
    }

    constructor (sq: array<Command>, cq: array<Completion>)
      requires 0 < sq.Length && 0 < cq.Length
      ensures Valid() && valid && this.sq == sq && this.cq == cq && View() == Pair(0, 0, Cq(cq[..], 0, true))
    {
      this.sq, this.cq := sq, cq;
      valid, sqHead, sqTail, cqTail, cqPhase := true, 0, 0, 0, true;
    }

    /** The loop body of process_queue_commands: fetch, execute, post, advance both pointers. */
    method ExecuteNext(exec: Executor, k: nat)
      requires Valid() && sqHead != sqTail
      modifies this, cq
      ensures Valid() && valid == old(valid)
      ensures var p := old(View());
              var next := NextSlot(p.sqHead, sq.Length);
              View() == Pair(next, p.sqTail, Post(p.cq, exec(k, sq[..][p.sqHead]).(sqHead := next)))
    {
      var c := exec(k, sq[sqHead]);
      c := c.(sqHead := (sqHead + 1) % sq.Length);
      c := c.(status := WithTag(c.status, cqPhase));
      cq[cqTail] := c;
      assert cq[..] == old(cq[..])[cqTail := c];
      cqTail := cqTail + 1;
      if cq.Length <= cqTail {
        cqTail := 0;
        cqPhase := !cqPhase;
      }
      sqHead := sqHead + 1;
      if sq.Length <= sqHead { sqHead := 0; }
    }

    /** A submission doorbell: new tail, then process_queue_commands; `done` commands were executed before. */
    method RingSubmission(tail: nat, exec: Executor, done: nat) returns (interrupt: bool)
      requires Valid() && tail < sq.Length
      requires sq as object != cq
      modifies this, cq
      ensures Valid() && valid == old(valid)
      ensures View() == if valid then Process(old(View()).(sqTail := tail), sq[..], exec, done)
                        else old(View()).(sqTail := tail)
      ensures interrupt <==> valid && old(sqHead) != tail
    {
      hide Post;
      sqTail := tail;
      interrupt := false;
      if !valid { return; }
      ghost var p0 := View();
      var k := done;
      while sqHead != sqTail
        invariant Valid() && valid && sqTail == tail
        invariant interrupt <==> k != done
        invariant if k == done then sqHead == old(sqHead) else done < k && old(sqHead) != tail
        invariant Process(View(), sq[..], exec, k) == Process(p0, sq[..], exec, done)
        decreases Waiting(sqHead, sqTail, sq.Length)
      {
        ExecuteNext(exec, k);
        interrupt := true;
        k := k + 1;
      }
    }
  }
}
