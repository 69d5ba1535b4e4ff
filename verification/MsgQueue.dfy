/**
 The inter-module message queues: priority lists on values, the reference they refine (a box for each module that keeps
 its messages in arrival order; receive takes the oldest of the highest priority), and the linked list in place.
 */
module MsgQueue {
  import opened Common

  const MODULES: nat := 5

  datatype Message = Message(dst: nat, priority: nat, id: nat, stamp: nat, body: seq<int>)

  // ---- lists

  /** The insertion loop: in front of the first message of lower priority. */
  function Insert(ms: seq<Message>, m: Message): (r: seq<Message>)
    ensures |r| == |ms| + 1
  {
    if ms == [] then [m]
    else if m.priority <= ms[0].priority then [ms[0]] + Insert(ms[1..], m)
    else [m] + ms
  }

  ghost predicate Descending(ms: seq<Message>) {
    forall i, j :: 0 <= i < j < |ms| ==> ms[j].priority <= ms[i].priority
  }

  lemma {:induction false} InsertAdds(ms: seq<Message>, m: Message)
    ensures forall x :: x in Insert(ms, m) ==> x == m || x in ms
  {
    if ms != [] && m.priority <= ms[0].priority { InsertAdds(ms[1..], m); }
  }

  lemma {:induction false} InsertDescending(ms: seq<Message>, m: Message)
    requires Descending(ms)
    ensures Descending(Insert(ms, m))
  {
    if ms != [] && m.priority <= ms[0].priority {
      InsertDescending(ms[1..], m);
      InsertAdds(ms[1..], m);
      var r := Insert(ms[1..], m);
      forall j | 0 <= j < |r| ensures r[j].priority <= ms[0].priority {
        assert r[j] == m || r[j] in ms[1..];
      }
    }
  }

  lemma {:induction false} InsertBetween(before: seq<Message>, m: Message, behind: seq<Message>)
    requires forall i :: 0 <= i < |before| ==> m.priority <= before[i].priority
    requires behind != [] ==> behind[0].priority < m.priority
    ensures Insert(before + behind, m) == before + ([m] + behind)
  {
    if before == [] {
      assert [] + behind == behind;
      assert [] + ([m] + behind) == [m] + behind;
    } else {
      hide Insert;
      InsertBetween(before[1..], m, behind);
      HeadFirst(before, behind);
      InsertPasses(before[0], before[1..] + behind, m);
      HeadFirst(before, [m] + behind);
    }
  }

  lemma HeadFirst(a: seq<Message>, b: seq<Message>)
    requires a != []
    ensures a + b == [a[0]] + (a[1..] + b)
  {
  }

  lemma InsertPasses(first: Message, ms: seq<Message>, m: Message)
    requires m.priority <= first.priority
    ensures Insert([first] + ms, m) == [first] + Insert(ms, m)
  {
    assert ([first] + ms)[1..] == ms;
  }

  lemma InsertAt(ms: seq<Message>, m: Message, k: nat)
    requires k <= |ms| && (forall i :: 0 <= i < k ==> m.priority <= ms[i].priority)
    requires k < |ms| ==> ms[k].priority < m.priority
    ensures Insert(ms, m) == ms[..k] + [m] + ms[k..]
  {
    hide Insert;
    InsertBetween(ms[..k], m, ms[k..]);
    assert ms == ms[..k] + ms[k..];
  }

  // ---- the reference: arrival order

  /** Sorting a list of arrivals by inserting them one after the other. */
  function Sorted(arrivals: seq<Message>): (r: seq<Message>)
    ensures |r| == |arrivals|
  {
    if arrivals == [] then [] else Insert(Sorted(arrivals[..|arrivals| - 1]), arrivals[|arrivals| - 1])
  }

  lemma SortedSnoc(arrivals: seq<Message>, m: Message)
    ensures Sorted(arrivals + [m]) == Insert(Sorted(arrivals), m)
  {
    hide Insert;
    assert (arrivals + [m])[..|arrivals|] == arrivals;
  }

  /** `i` is the oldest message of the highest priority. */
  ghost predicate IsFirst(arrivals: seq<Message>, i: nat) {
    && i < |arrivals|
    && (forall j :: 0 <= j < |arrivals| ==> arrivals[j].priority <= arrivals[i].priority)
    && (forall j :: 0 <= j < i ==> arrivals[j].priority < arrivals[i].priority)
  }

  function First(arrivals: seq<Message>): (i: nat)
    requires arrivals != []
    ensures IsFirst(arrivals, i)
  {
    var n := |arrivals| - 1;
    if n == 0 then 0
    else
      var i := First(arrivals[..n]);
      assert forall j :: 0 <= j < n ==> arrivals[..n][j] == arrivals[j];
      if arrivals[i].priority < arrivals[n].priority then n else i
  }

  function Without(arrivals: seq<Message>, i: nat): seq<Message>
    requires i < |arrivals|
  {
    arrivals[..i] + arrivals[i + 1..]
  }

  lemma WithoutSnoc(p: seq<Message>, m: Message, i: nat)
    requires i < |p|
    ensures Without(p + [m], i) == Without(p, i) + [m]
  {
    assert (p + [m])[..i] == p[..i] && (p + [m])[i + 1..] == p[i + 1..] + [m];
  }

  /**
   The head of the priority list is the oldest message of the highest priority, and the rest is the list of the rest.
   */
  lemma {:induction false} SortedHead(arrivals: seq<Message>)
    requires arrivals != []
    ensures Sorted(arrivals)[0] == arrivals[First(arrivals)]
    ensures Sorted(arrivals)[1..] == Sorted(Without(arrivals, First(arrivals)))
  {
    hide Sorted;
    var n := |arrivals| - 1;
    var p, m := arrivals[..n], arrivals[n];
    var i := First(arrivals);
    assert arrivals == p + [m];
    SortedSnoc(p, m);
    if n == 0 {
      SortedSingle(m);
      assert Without(arrivals, i) == [];
    } else {
      SortedHead(p);
      assert arrivals[First(p)] == p[First(p)];
      if i == n {
        assert Without(arrivals, i) == p;
      } else {
        WithoutSnoc(p, m, i);
        SortedSnoc(Without(p, i), m);
      }
    }
  }

  lemma SortedSingle(m: Message)
    ensures Sorted([]) == [] && Sorted([m]) == [m]
  {
    assert [m][..0] == [];
  }

  // ---- one queue

  datatype Queue = Queue(ready: bool, messages: seq<Message>, capacity: nat)

  /** msg_queue_init. */
  function InitOf(q: Queue, size: nat): (RetCode, Queue) {
    if size == 0 then (Param, q) else (Ok, Queue(true, [], size))
  }

  /** msg_queue_deinit. */
  function DeinitOf(q: Queue): (RetCode, Queue) {
    if !q.ready then (NotInit, q) else (Ok, Queue(false, [], 0))
  }

  /** msg_queue_clear. */
  function ClearOf(q: Queue): (RetCode, Queue) {
    if !q.ready then (NotInit, q) else (Ok, q.(messages := []))
  }

  /** msg_queue_send once the destination is known; `memory` is whether malloc succeeds. */
  function SendTo(q: Queue, m: Message, memory: bool): (RetCode, Queue) {
    if !q.ready then (NotInit, q)
    else if q.capacity <= |q.messages| then (NoSpace, q)
    else if !memory then (Internal, q)
    else (Ok, q.(messages := Insert(q.messages, m)))
  }

  /** msg_queue_recv. */
  function RecvFrom(q: Queue): (RetCode, Option<Message>, Queue) {
    if !q.ready then (NotInit, None, q)
    else if q.messages == [] then (Busy, None, q)
    else (Ok, Some(q.messages[0]), q.(messages := q.messages[1..]))
  }

  // ---- all queues

  /** The queues of all modules, the next message id and the time stamp counter (both 32 bits wide). */
  datatype Hub = Hub(queues: seq<Queue>, nextId: nat, clock: nat)
  {
    predicate Shape() { |queues| == MODULES }

    function With(m: nat, q: Queue): (h: Hub)
      requires Shape() && m < MODULES
      ensures h.Shape()
    {
      this.(queues := queues[m := q])
    }
  }

  datatype Call =
    | CallInit(module_: nat, size: nat)
    | CallDeinit(module_: nat)
    | CallSend(msg: Message, memory: bool)
    | CallRecv(module_: nat)
    | CallClear(module_: nat)
  {
    /** The module whose queue the call is about. */
    function Addressed(): nat { if CallSend? then msg.dst else module_ }
  }

  datatype Reply = Reply(code: RetCode, got: Option<Message>)

  /** One call of the firmware. */
  function Step(h: Hub, c: Call): (r: (Reply, Hub))
    requires h.Shape()
    ensures r.1.Shape()
  {
    var m := c.Addressed();
    if MODULES <= m then (Reply(Param, None), h)
    else
      match c
      case CallInit(_, size) =>
        var (code, q) := InitOf(h.queues[m], size); (Reply(code, None), h.With(m, q))
      case CallDeinit(_) =>
        var (code, q) := DeinitOf(h.queues[m]); (Reply(code, None), h.With(m, q))
      case CallSend(msg, memory) =>
        var (code, q) := SendTo(h.queues[m], msg.(id := h.nextId, stamp := h.clock), memory);
        if code != Ok then (Reply(code, None), h)
        else (Reply(Ok, None), Hub(h.With(m, q).queues, (h.nextId + 1) % TWO32, (h.clock + 1) % TWO32))
      case CallRecv(_) =>
        var (code, got, q) := RecvFrom(h.queues[m]); (Reply(code, got), h.With(m, q))
      case CallClear(_) =>
        var (code, q) := ClearOf(h.queues[m]); (Reply(code, None), h.With(m, q))
  }

  /** A call changes no queue but that of the module it addresses. */
  lemma OthersUntouched(h: Hub, c: Call, m: nat)
    requires h.Shape() && m < MODULES && m != c.Addressed()
    ensures Step(h, c).1.queues[m] == h.queues[m]
  {
  }

  // ---- the reference: letter boxes in arrival order

  /** The box of a module: shut, or open with what has been sent to it and not been received yet, oldest first. */
  datatype Box = Shut | Open(capacity: nat, waiting: seq<Message>)

  /** The boxes of all modules, and how many messages have been sent since the start. */
  datatype Post = Post(boxes: seq<Box>, sent: nat)
  {
    predicate Shape() { |boxes| == MODULES }
  }

  /**
   What each call answers and leaves.  A message goes to the end of the box of its own destination and gets the number
   of messages sent before it, as a 32-bit word, for an id; receiving takes the oldest of the highest priority.
   */
  function RefStep(r: Post, c: Call): (o: (Reply, Post))
    requires r.Shape()
    ensures o.1.Shape()
  {
    match c
    case CallInit(m, size) =>
      if MODULES <= m || size == 0 then (Reply(Param, None), r)
      else (Reply(Ok, None), r.(boxes := r.boxes[m := Open(size, [])]))
    case CallDeinit(m) =>
      if MODULES <= m then (Reply(Param, None), r)
      else if r.boxes[m] == Shut then (Reply(NotInit, None), r)
      else (Reply(Ok, None), r.(boxes := r.boxes[m := Shut]))
    case CallClear(m) =>
      if MODULES <= m then (Reply(Param, None), r)
      else if r.boxes[m] == Shut then (Reply(NotInit, None), r)
      else (Reply(Ok, None), r.(boxes := r.boxes[m := Open(r.boxes[m].capacity, [])]))
    case CallSend(msg, memory) =>
      if MODULES <= msg.dst then (Reply(Param, None), r)
      else if r.boxes[msg.dst] == Shut then (Reply(NotInit, None), r)
      else
        var Open(capacity, waiting) := r.boxes[msg.dst];
        if capacity <= |waiting| then (Reply(NoSpace, None), r)
        else if !memory then (Reply(Internal, None), r)
        else
          var letter := Message(msg.dst, msg.priority, r.sent % TWO32, r.sent % TWO32, msg.body);
          (Reply(Ok, None), Post(r.boxes[msg.dst := Open(capacity, waiting + [letter])], r.sent + 1))
    case CallRecv(m) =>
      if MODULES <= m then (Reply(Param, None), r)
      else if r.boxes[m] == Shut then (Reply(NotInit, None), r)
      else if r.boxes[m].waiting == [] then (Reply(Busy, None), r)
      else
        var Open(capacity, waiting) := r.boxes[m];
        var i := First(waiting);
        (Reply(Ok, Some(waiting[i])), r.(boxes := r.boxes[m := Open(capacity, Without(waiting, i))]))
  }

  /** The queue a box is kept in. */
  function Kept(b: Box): Queue {
    match b
    case Shut => Queue(false, [], 0)
    case Open(capacity, waiting) => Queue(true, Sorted(waiting), capacity)
  }

  /** The firmware state `h` represents the boxes `r`. */
  ghost predicate Represents(h: Hub, r: Post)
    ensures Represents(h, r) ==> h.Shape() && r.Shape()
  {
    && h.Shape() && r.Shape() && h.nextId == r.sent % TWO32 && h.clock == r.sent % TWO32
    && forall m :: 0 <= m < MODULES ==> h.queues[m] == Kept(r.boxes[m])
  }

  lemma StepRefines(h: Hub, r: Post, c: Call)
    requires Represents(h, r)
    ensures Step(h, c).0 == RefStep(r, c).0 && Represents(Step(h, c).1, RefStep(r, c).1)
  {
    hide Sorted, Insert, First;
    SortedEmpty();
    match c
    case CallSend(msg, _) =>
      if msg.dst < MODULES && r.boxes[msg.dst].Open? {
        SortedSnoc(r.boxes[msg.dst].waiting, msg.(id := h.nextId, stamp := h.clock));
      }
    case CallRecv(m) =>
      if m < MODULES && r.boxes[m].Open? && r.boxes[m].waiting != [] { SortedHead(r.boxes[m].waiting); }
    case _ =>
  }

  lemma SortedEmpty()
    ensures Sorted([]) == []
  {
  }

  function Run(h: Hub, calls: seq<Call>): (r: (seq<Reply>, Hub))
    requires h.Shape()
    ensures r.1.Shape() && |r.0| == |calls|
    decreases calls
  {
    if calls == [] then ([], h)
    else
      var (reply, h1) := Step(h, calls[0]);
      var (replies, h2) := Run(h1, calls[1..]);
      ([reply] + replies, h2)
  }

  function RefRun(r: Post, calls: seq<Call>): (o: (seq<Reply>, Post))
    requires r.Shape()
    ensures o.1.Shape() && |o.0| == |calls|
    decreases calls
  {
    if calls == [] then ([], r)
    else
      var (reply, r1) := RefStep(r, calls[0]);
      var (replies, r2) := RefRun(r1, calls[1..]);
      ([reply] + replies, r2)
  }

  /** Whatever the calls, the queues answer as the boxes do, and end up representing them. */
  lemma {:induction false} RunRefines(h: Hub, r: Post, calls: seq<Call>)
    requires Represents(h, r)
    ensures Run(h, calls).0 == RefRun(r, calls).0 && Represents(Run(h, calls).1, RefRun(r, calls).1)
    decreases calls
  {
    hide Step, RefStep, Represents;
    if calls != [] {
      StepRefines(h, r, calls[0]);
      RunRefines(Step(h, calls[0]).1, RefStep(r, calls[0]).1, calls[1..]);
    }
  }

  /** Calls about other modules leave a queue alone. */
  lemma {:induction false} OthersRun(h: Hub, calls: seq<Call>, m: nat)
    requires h.Shape() && m < MODULES && forall i :: 0 <= i < |calls| ==> calls[i].Addressed() != m
    ensures Run(h, calls).1.queues[m] == h.queues[m]
    decreases calls
  {
    hide Step;
    if calls != [] {
      OthersUntouched(h, calls[0], m);
      OthersRun(Step(h, calls[0]).1, calls[1..], m);
    }
  }

  /**
   A message sent to a module with an empty queue is what that module receives next, whatever calls about other modules
   come in between; all it has gained is its id and time stamp.
   */
  lemma SendDelivers(h: Hub, msg: Message, between: seq<Call>)
    requires h.Shape() && msg.dst < MODULES
    requires var q := h.queues[msg.dst]; q.ready && q.messages == [] && 0 < q.capacity
    requires forall i :: 0 <= i < |between| ==> between[i].Addressed() != msg.dst
    ensures var (sent, h1) := Step(h, CallSend(msg, true));
            var h2 := Run(h1, between).1;
            var (received, h3) := Step(h2, CallRecv(msg.dst));
            && sent == Reply(Ok, None)
            && received == Reply(Ok, Some(Message(msg.dst, msg.priority, h.nextId, h.clock, msg.body)))
            && h3.queues[msg.dst] == h.queues[msg.dst]
  {
    hide Run;
    OthersRun(Step(h, CallSend(msg, true)).1, between, msg.dst);
  }

  /** Every list is in descending priority and within its capacity. */
  ghost predicate Orderly(h: Hub)
    ensures Orderly(h) ==> h.Shape()
  {
    && h.Shape()
    && forall m :: 0 <= m < MODULES ==>
         Descending(h.queues[m].messages) && |h.queues[m].messages| <= h.queues[m].capacity
  }

  const BOOT: Hub :=
    Hub([Queue(false, [], 0), Queue(false, [], 0), Queue(false, [], 0), Queue(false, [], 0), Queue(false, [], 0)], 0, 0)

  const ALL_SHUT: Post := Post([Shut, Shut, Shut, Shut, Shut], 0)

  lemma StepOrderly(h: Hub, c: Call)
    requires Orderly(h)
    ensures Orderly(Step(h, c).1)
  {
    if c.CallSend? && c.msg.dst < MODULES {
      InsertDescending(h.queues[c.msg.dst].messages, c.msg.(id := h.nextId, stamp := h.clock));
    }
  }

  lemma {:induction false} RunOrderly(h: Hub, calls: seq<Call>)
    requires Orderly(h)
    ensures Orderly(Run(h, calls).1)
    decreases calls
  {
    hide Step, Orderly;
    if calls != [] {
      StepOrderly(h, calls[0]);
      RunOrderly(Step(h, calls[0]).1, calls[1..]);
    }
  }

  /** In every reachable state the lists are orderly, keep the boxes, and every answer so far was that of the boxes. */
  lemma ReachableQueues(calls: seq<Call>)
    ensures Orderly(Run(BOOT, calls).1)
    ensures Run(BOOT, calls).0 == RefRun(ALL_SHUT, calls).0
    ensures Represents(Run(BOOT, calls).1, RefRun(ALL_SHUT, calls).1)
  {
    hide Run, RefRun;
    RunOrderly(BOOT, calls);
    RunRefines(BOOT, ALL_SHUT, calls);
  }

  // ---- one list in place

  class Node {
    var msg: Message
    var next: Node?

    constructor (msg: Message)
      ensures this.msg == msg && next == null
    {
      this.msg := msg;
      next := null;
    }
  }

  /** The node behind node `i`. */
  ghost function After(ns: seq<Node>, i: nat): Node? {
    if i + 1 < |ns| then ns[i + 1] else null
  }

  ghost predicate Linked(ns: seq<Node>)
    reads set n | n in ns
  {
    forall i :: 0 <= i < |ns| ==> ns[i].next == After(ns, i)
  }

  ghost predicate Distinct(ns: seq<Node>) {
    forall i, j :: 0 <= i < j < |ns| ==> ns[i] != ns[j]
  }

  ghost function Messages(ns: seq<Node>): (ms: seq<Message>)
    reads set n | n in ns
    ensures |ms| == |ns| && forall i :: 0 <= i < |ns| ==> ms[i] == ns[i].msg
  {
    seq(|ns|, i requires 0 <= i < |ns| reads set n | n in ns => ns[i].msg)
  }

  ghost function Inserted(ns: seq<Node>, k: nat, node: Node): (r: seq<Node>)
    requires k <= |ns|
    ensures |r| == |ns| + 1 && r[k] == node
    ensures r[0] == (if k == 0 then node else ns[0]) && r[|ns|] == (if k == |ns| then node else ns[|ns| - 1])
  {
    ns[..k] + [node] + ns[k..]
  }

  lemma InsertedDistinct(ns: seq<Node>, k: nat, node: Node)
    requires k <= |ns| && Distinct(ns) && node !in ns
    ensures Distinct(Inserted(ns, k, node))
  {
  }

  lemma MessagesInserted(ns: seq<Node>, k: nat, node: Node, ms: seq<Message>)
    requires k <= |ns| == |ms| && forall i :: 0 <= i < |ns| ==> ns[i].msg == ms[i]
    ensures Messages(Inserted(ns, k, node)) == ms[..k] + [node.msg] + ms[k..]
  {
  }

  /** The pointer updates of an insertion at `k` are all it takes to link the longer list. */
  lemma LinkedAfter(ns: seq<Node>, k: nat, node: Node)
    requires k <= |ns|
    requires forall i :: 0 <= i < |ns| ==> ns[i].next == if i + 1 == k then node else After(ns, i)
    requires node.next == if k < |ns| then ns[k] else null
    ensures Linked(Inserted(ns, k, node))
  {
    var r := Inserted(ns, k, node);
    forall i | 0 <= i < |r| ensures r[i].next == After(r, i) {
      if i < k { assert ns[i].next == if i + 1 == k then node else After(ns, i); }
      if k < i { assert ns[i - 1].next == After(ns, i - 1); }
    }
  }

  lemma OnlyPrev(ns: seq<Node>, k: nat)
    requires k <= |ns| && Linked(ns) && Distinct(ns)
    ensures forall i :: 0 <= i < |ns| && i + 1 != k ==> (0 < k ==> ns[i] != ns[k - 1]) && ns[i].next == After(ns, i)
  {
    hide After;
  }

  lemma RestLinked(ns: seq<Node>)
    requires ns != [] && Linked(ns) && Distinct(ns)
    ensures Linked(ns[1..]) && Distinct(ns[1..])
    ensures Messages(ns[1..]) == Messages(ns)[1..]
    ensures ns[0].next == if |ns| == 1 then null else ns[1]
  {
    var rest := ns[1..];
    assert ns[0].next == After(ns, 0);
    assert forall i :: 0 <= i < |rest| ==> rest[i] == ns[i + 1] && After(rest, i) == After(ns, i + 1);
  }

  /** msg_queue_t: head, tail and count over linked nodes; `spine` is the nodes in order. */
  class MessageList {
    var head: Node?
    var tail: Node?
    var count: nat
    var capacity: nat
    var ready: bool
    ghost var spine: seq<Node>

    ghost predicate Valid()
      reads this, set n | n in spine
    {
      && count == |spine|
      && head == (if spine == [] then null else spine[0])
      && tail == (if spine == [] then null else spine[|spine| - 1])
      && Linked(spine) && Distinct(spine)
    }

    /** The list as a value. */
    ghost function View(): Queue
      reads this, set n | n in spine
    {
      Queue(ready, Messages(spine), capacity)
    }

    constructor ()
      ensures Valid() && View() == Queue(false, [], 0) && spine == []
    {
      head, tail, count, capacity, ready := null, null, 0, 0, false;
      spine := [];
    }

    /** msg_queue_init. */
    method Init(size: nat) returns (code: RetCode)
      requires Valid()
      modifies this
      ensures Valid()
      ensures (code, View()) == InitOf(old(View()), size)
      ensures code == if size == 0 then Param else Ok
      ensures View() == if code == Ok then Queue(true, [], size) else old(View())
    {
      if size == 0 { return Param; }
      head, tail, count, capacity, ready := null, null, 0, size, true;
      spine := [];
      code := Ok;
    }

    /** msg_queue_deinit. */
    method Deinit() returns (code: RetCode)
      requires Valid()
      modifies this
      ensures Valid()
      ensures (code, View()) == DeinitOf(old(View()))
      ensures code == if old(ready) then Ok else NotInit
      ensures View() == if code == Ok then Queue(false, [], 0) else old(View())
    {
      if !ready { return NotInit; }
      head, tail, count, capacity, ready := null, null, 0, 0, false;
      spine := [];
      code := Ok;
    }

    /** msg_queue_clear; leaving the nodes to the collector stands for freeing them. */
    method Clear() returns (code: RetCode)
      requires Valid()
      modifies this
      ensures Valid()
      ensures (code, View()) == ClearOf(old(View()))
      ensures code == if old(ready) then Ok else NotInit
      ensures View() == if code == Ok then old(View()).(messages := []) else old(View())
    {
      if !ready { return NotInit; }
      head, tail, count := null, null, 0;
      spine := [];
      code := Ok;
    }

    /** The search loop of msg_queue_send: the first node of lower priority and the node before it. */
    method FindSlot(priority: nat) returns (prev: Node?, curr: Node?, ghost k: nat)
      requires Valid()
      ensures k <= |spine| && (forall i :: 0 <= i < k ==> priority <= spine[i].msg.priority)
      ensures k < |spine| ==> spine[k].msg.priority < priority
      ensures curr == (if k < |spine| then spine[k] else null) && prev == (if k == 0 then null else spine[k - 1])
      ensures curr == null <==> forall i :: 0 <= i < |spine| ==> priority <= spine[i].msg.priority
      ensures curr != null ==> curr.msg.priority < priority
    {
      k := 0;
      curr, prev := head, null;
      while curr != null && priority <= curr.msg.priority
        invariant k <= |spine| && curr == (if k < |spine| then spine[k] else null)
        invariant prev == if k == 0 then null else spine[k - 1]
        invariant forall i :: 0 <= i < k ==> priority <= spine[i].msg.priority
        decreases |spine| - k
      {
        assert spine[k].next == After(spine, k);
        prev := curr;
        curr := curr.next;
        k := k + 1;
      }
    }

    /** Linking a new node in: as the only one, in front, at the end, or in the middle. */
    method Splice(node: Node, prev: Node?, curr: Node?)
      requires node.next == null && node != prev
      requires prev == null ==> curr == head
      requires curr == null ==> prev == tail
      requires head == null <==> tail == null
      requires head == null ==> prev == null
      modifies `head, `tail, node`next, (if prev == null then {} else {prev})`next
      ensures node.next == curr && (prev != null ==> prev.next == node)
      ensures head == if prev == null then node else old(head)
      ensures tail == if curr == null then node else old(tail)
    {
      if head == null {
        head, tail := node, node;
      } else if prev == null {
        node.next := head;
        head := node;
      } else if curr == null {
        tail.next := node;
        tail := node;
      } else {
        node.next := curr;
        prev.next := node;
      }
    }

    /** A new node for `m` in front of the first node of lower priority. */
    method InsertNode(m: Message) returns (node: Node, ghost k: nat)
      requires Valid()
      modifies this, set n | n in spine
      ensures Valid() && fresh(node) && node.msg == m
      ensures k <= |old(spine)| && spine == Inserted(old(spine), k, node)
      ensures forall i :: 0 <= i < |old(spine)| ==> old(spine)[i].msg == old(spine[i].msg)
      ensures forall i :: 0 <= i < k ==> m.priority <= old(spine[i].msg.priority)
      ensures k < |old(spine)| ==> old(spine)[k].msg.priority < m.priority
      ensures ready == old(ready) && capacity == old(capacity)
    {
      hide Inserted, After, Messages;
      node := new Node(m);
      ghost var was := spine;
      var prev, curr;
      prev, curr, k := FindSlot(m.priority);
      OnlyPrev(was, k);
      Splice(node, prev, curr);
      assert forall i :: 0 <= i < |was| && i + 1 != k ==> was[i].next == After(was, i);
      LinkedAfter(was, k, node);
      InsertedDistinct(was, k, node);
      hide Linked, Distinct;
      count := count + 1;
      spine := Inserted(was, k, node);
    }

    /** msg_queue_send once the destination is known: the new node goes in front of the first lower priority. */
    method Send(msg: Message, id: nat, stamp: nat, memory: bool) returns (code: RetCode)
      requires Valid()
      modifies this, set n | n in spine
      ensures Valid()
      ensures (code, View()) == SendTo(old(View()), msg.(id := id, stamp := stamp), memory)
      ensures code == if !old(ready) then NotInit else if old(capacity) <= |old(View()).messages| then NoSpace
                      else if !memory then Internal else Ok
      ensures View() == if code == Ok
                        then old(View()).(messages := Insert(old(View()).messages, msg.(id := id, stamp := stamp)))
                        else old(View())
    {
      hide Insert, Inserted, Linked, Distinct;
      if !ready { return NotInit; }
      if capacity <= count { return NoSpace; }
      if !memory { return Internal; }
      var m := msg.(id := id, stamp := stamp);
      ghost var was, ms := spine, Messages(spine);
      var node, k := InsertNode(m);
      InsertAt(ms, m, k);
      MessagesInserted(was, k, node, ms);
      code := Ok;
    }

    /** msg_queue_recv: unlinks the head. */
    method Recv() returns (code: RetCode, got: Option<Message>)
      requires Valid()
      modifies this
      ensures Valid()
      ensures (code, got, View()) == RecvFrom(old(View()))
      ensures code == if !old(ready) then NotInit else if old(View()).messages == [] then Busy else Ok
      ensures code == Ok ==> got == Some(old(View()).messages[0])
                             && View() == old(View()).(messages := old(View()).messages[1..])
      ensures code != Ok ==> got == None && View() == old(View())
    {
      hide Linked, Distinct, Messages;
      if !ready { return NotInit, None; }
      if count == 0 { return Busy, None; }
      var node := head;
      RestLinked(spine);
      head := node.next;
      count := count - 1;
      if head == null { tail := null; }
      spine := spine[1..];
      code, got := Ok, Some(node.msg);
    }
  }
}
