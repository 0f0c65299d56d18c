/** internal/queue/lock_free_queue.go: the Michael-Scott queue with a separate length counter.

    Every atomic load, compare-and-swap and add of Enqueue and Dequeue is one step of one thread.
    A step is a function of the shared state and of the thread that takes it, so a schedule (who
    moves next, and which call an idle thread makes) determines a run, and a statement about every
    schedule is a statement about every interleaving of any number of threads.
 */
module LockFreeQueue {
  import opened Wrappers

  type TaskRef = nat // a *Task
  type NodeId = nat  // a *node: its index in the heap, in order of allocation; never reused
  type Tid = nat     // a goroutine

  datatype Node = Node(value: TaskRef, next: Option<NodeId>)

  /** The shared memory of one queue. */
  datatype Mem = Mem(heap: seq<Node>, head: NodeId, tail: NodeId, length: int)

  /** Where an Enqueue or a Dequeue is, with the locals it still needs; beside each constructor, the
      line it is about to run. */
  datatype EnqAt =
    | LoadTail                                             // 107
    | LoadNext(tail: NodeId)                               // 108
    | Check(tail: NodeId, next: Option<NodeId>)            // 110
    | Link(tail: NodeId)                                   // 113
    | Swing(tail: NodeId)                                  // 115
    | Count                                                // 116
    | Help(tail: NodeId, succ: NodeId)                     // 121

  datatype DeqAt =
    | LoadHead                                             // 131
    | LoadTail(head: NodeId)                               // 132
    | LoadNext(head: NodeId, tail: NodeId)                 // 133
    | Check(head: NodeId, tail: NodeId, next: Option<NodeId>) // 135
    | Help(tail: NodeId, succ: NodeId)                     // 142
    | Swing(head: NodeId, succ: NodeId, task: TaskRef)     // 146
    | Uncount(task: TaskRef)                               // 147

  datatype PC =
    | Idle
    | Enqueuing(n: NodeId, enq: EnqAt)
    | Dequeuing(deq: DeqAt)
    | Panicked // a nil dereference at 145

  datatype Call = Enqueue(task: TaskRef) | Dequeue

  datatype State = State(m: Mem, threads: map<Tid, PC>)

  /** atomic.AddInt32 wraps around. */
  function Int32(x: int): int {
    (x + 0x8000_0000) % 0x1_0000_0000 - 0x8000_0000
  }

  function NextOf(m: Mem, id: NodeId): Option<NodeId> {
    if id < |m.heap| then m.heap[id].next else None
  }

  function ValueOf(m: Mem, id: NodeId): TaskRef {
    if id < |m.heap| then m.heap[id].value else 0
  }

  /** The tail CAS of lines 115, 121 and 142. */
  function CasTail(m: Mem, from: NodeId, to: NodeId): Mem {
    if m.tail == from then m.(tail := to) else m
  }

  /** The link CAS succeeds. */
  predicate CanLink(m: Mem, tail: NodeId) {
    tail < |m.heap| && m.heap[tail].next.None?
  }

  function ActEnqueue(m: Mem, n: NodeId, at: EnqAt): (Mem, PC) {
    match at
    case LoadTail => (m, Enqueuing(n, EnqAt.LoadNext(m.tail)))
    case LoadNext(tail) => (m, Enqueuing(n, EnqAt.Check(tail, NextOf(m, tail))))
    case Check(tail, next) =>
      (m, Enqueuing(n, if tail != m.tail then EnqAt.LoadTail
                       else if next.None? then Link(tail)
                       else EnqAt.Help(tail, next.value)))
    case Link(tail) =>
      if CanLink(m, tail) then
        (m.(heap := m.heap[tail := m.heap[tail].(next := Some(n))]), Enqueuing(n, EnqAt.Swing(tail)))
      else (m, Enqueuing(n, EnqAt.LoadTail))
    case Swing(tail) => (CasTail(m, tail, n), Enqueuing(n, Count))
    case Count => (m.(length := Int32(m.length + 1)), Idle)
    case Help(tail, succ) => (CasTail(m, tail, succ), Enqueuing(n, EnqAt.LoadTail))
  }

  function ActDequeue(m: Mem, at: DeqAt): (Mem, PC) {
    match at
    case LoadHead => (m, Dequeuing(DeqAt.LoadTail(m.head)))
    case LoadTail(head) => (m, Dequeuing(DeqAt.LoadNext(head, m.tail)))
    case LoadNext(head, tail) => (m, Dequeuing(DeqAt.Check(head, tail, NextOf(m, head))))
    case Check(head, tail, next) =>
      (m, if head != m.head then Dequeuing(LoadHead)
          else if head == tail then
            if next.None? then Idle else Dequeuing(DeqAt.Help(tail, next.value))
          else if next.None? then Panicked
          else Dequeuing(DeqAt.Swing(head, next.value, ValueOf(m, next.value))))
    case Help(tail, succ) => (CasTail(m, tail, succ), Dequeuing(LoadHead))
    case Swing(head, succ, task) =>
      if m.head == head then (m.(head := succ), Dequeuing(Uncount(task))) else (m, Dequeuing(LoadHead))
    case Uncount(_) => (m.(length := Int32(m.length - 1)), Idle)
  }

  /** The next atomic access of a thread at pc; call is what an idle thread does next. */
  function Act(m: Mem, pc: PC, call: Call): (Mem, PC) {
    match pc
    case Idle =>
      (match call
       case Enqueue(task) => (m.(heap := m.heap + [Node(task, None)]), Enqueuing(|m.heap|, EnqAt.LoadTail))
       case Dequeue => (m, Dequeuing(LoadHead)))
    case Enqueuing(n, at) => ActEnqueue(m, n, at)
    case Dequeuing(at) => ActDequeue(m, at)
    case Panicked => (m, pc)
  }

  function Step(s: State, t: Tid, call: Call): State
    requires t in s.threads
  {
    var (m, pc) := Act(s.m, s.threads[t], call);
    State(m, s.threads[t := pc])
  }

  /** NewLockFreeQueue, with every thread of tids outside the queue. */
  function Init(tids: set<Tid>): State {
    State(Mem([Node(0, None)], 0, 0, 0), map t | t in tids :: Idle)
  }

  // ---------------------------------------------------------------------------------------------
  // The three kinds of step that succeed in a CAS, and the two that end an iteration

  predicate Links(m: Mem, pc: PC) {
    pc.Enqueuing? && pc.enq.Link? && CanLink(m, pc.enq.tail)
  }

  predicate Unlinks(m: Mem, pc: PC) {
    pc.Dequeuing? && pc.deq.Swing? && m.head == pc.deq.head
  }

  predicate Swings(m: Mem, pc: PC) {
    || (pc.Enqueuing? && (pc.enq.Swing? || pc.enq.Help?) && pc.enq.tail == m.tail)
    || (pc.Dequeuing? && pc.deq.Help? && pc.deq.tail == m.tail)
  }

  /** The step is a 'goto retry'. */
  predicate Retries(m: Mem, pc: PC) {
    match pc
    case Enqueuing(_, at) => (at.Check? && at.tail != m.tail) || (at.Link? && !CanLink(m, at.tail)) || at.Help?
    case Dequeuing(at) => (at.Check? && at.head != m.head) || at.Help? || (at.Swing? && at.head != m.head)
    case _ => false
  }

  /** The step is 'return nil'. */
  predicate ReturnsNil(m: Mem, pc: PC) {
    pc.Dequeuing? && pc.deq.Check? && pc.deq.head == m.head && pc.deq.head == pc.deq.tail && pc.deq.next.None?
  }

  // ---------------------------------------------------------------------------------------------
  // The abstract queue, read off the heap

  /** The tasks met by following next pointers from id, whose own task is skipped. */
  function Walk(heap: seq<Node>, id: NodeId, fuel: nat): seq<TaskRef>
    decreases fuel
  {
    if fuel == 0 || id >= |heap| || heap[id].next.None? then []
    else
      var succ := heap[id].next.value;
      if succ >= |heap| then [] else [heap[succ].value] + Walk(heap, succ, fuel - 1)
  }

  /** The queue: what follows the dummy node at head. */
  function Contents(m: Mem): seq<TaskRef> {
    Walk(m.heap, m.head, |m.heap|)
  }

  // ---------------------------------------------------------------------------------------------
  // History variables: no step reads them

  /** Every node ever linked, in order, with its position; head is nodes[h] and tail is nodes[t]. */
  datatype Chain = Chain(nodes: seq<NodeId>, pos: map<NodeId, nat>, h: nat, t: nat)

  function Track(m: Mem, k: Chain, pc: PC): Chain {
    if Links(m, pc) then k.(nodes := k.nodes + [pc.n], pos := k.pos[pc.n := |k.nodes|])
    else if Unlinks(m, pc) then k.(h := k.h + 1)
    else if Swings(m, pc) then k.(t := k.t + 1)
    else k
  }

  datatype Conf = Conf(s: State, k: Chain)

  function Next(c: Conf, t: Tid, call: Call): Conf {
    if t in c.s.threads then Conf(Step(c.s, t, call), Track(c.s.m, c.k, c.s.threads[t])) else c
  }

  type Schedule = seq<(Tid, Call)>

  /** The configuration after a run of the schedule. */
  function Exec(tids: set<Tid>, sched: Schedule): Conf {
    if sched == [] then Conf(Init(tids), Chain([0], map[0 := 0], 0, 0))
    else
      var i := |sched| - 1;
      Next(Exec(tids, sched[..i]), sched[i].0, sched[i].1)
  }

  // ---------------------------------------------------------------------------------------------
  // The structural invariant

  /** pos gives the place of each node. */
  ghost predicate Placed(k: Chain) {
    && (forall i :: 0 <= i < |k.nodes| ==> k.nodes[i] in k.pos && k.pos[k.nodes[i]] == i)
    && (forall id {:trigger k.pos[id]} :: id in k.pos ==> k.pos[id] < |k.nodes| && k.nodes[k.pos[id]] == id)
  }

  /** Each node leads to the one behind it, and the last to nil. */
  ghost predicate Linked(m: Mem, k: Chain) {
    && (forall id :: id in k.pos ==> id < |m.heap|)
    && (forall id {:trigger m.heap[id].next} :: id in k.pos ==>
          match m.heap[id].next
          case None => k.pos[id] == |k.nodes| - 1
          case Some(succ) => Succ(k, id, succ))
  }

  ghost predicate ChainInv(m: Mem, k: Chain) {
    && k.h <= k.t < |k.nodes| <= k.t + 2
    && Placed(k) && Linked(m, k)
    && m.head == k.nodes[k.h] && m.tail == k.nodes[k.t]
  }

  ghost predicate Fresh(m: Mem, k: Chain, n: NodeId) {
    n < |m.heap| && n !in k.pos && m.heap[n].next.None?
  }

  /** id was linked, at position p of the chain or before. */
  ghost predicate UpTo(k: Chain, id: NodeId, p: nat) {
    id in k.pos && k.pos[id] <= p
  }

  ghost predicate Succ(k: Chain, id: NodeId, succ: NodeId) {
    id in k.pos && succ in k.pos && k.pos[succ] == k.pos[id] + 1
  }

  /** The node an Enqueue has allocated but not yet linked. */
  function FreshOf(pc: PC): Option<NodeId> {
    if pc.Enqueuing? && !pc.enq.Swing? && !pc.enq.Count? then Some(pc.n) else None
  }

  ghost predicate EnqInv(m: Mem, k: Chain, n: NodeId, at: EnqAt) {
    match at
    case LoadTail => Fresh(m, k, n)
    case LoadNext(tail) => Fresh(m, k, n) && UpTo(k, tail, k.t)
    case Check(tail, next) => Fresh(m, k, n) && UpTo(k, tail, k.t) && (next.Some? ==> Succ(k, tail, next.value))
    case Link(tail) => Fresh(m, k, n) && UpTo(k, tail, k.t)
    case Swing(tail) => UpTo(k, tail, k.t) && Succ(k, tail, n)
    case Count => n in k.pos
    case Help(tail, succ) => Fresh(m, k, n) && UpTo(k, tail, k.t) && Succ(k, tail, succ)
  }

  ghost predicate DeqInv(m: Mem, k: Chain, at: DeqAt) {
    match at
    case LoadTail(head) => UpTo(k, head, k.h)
    case LoadNext(head, tail) => UpTo(k, head, k.h) && UpTo(k, tail, k.t) && k.pos[head] <= k.pos[tail]
    case Check(head, tail, next) =>
      && UpTo(k, head, k.h) && UpTo(k, tail, k.t) && k.pos[head] <= k.pos[tail]
      && (next.Some? ==> Succ(k, head, next.value))
      && (k.pos[head] < k.pos[tail] ==> next.Some?)
    case Help(tail, succ) => UpTo(k, tail, k.t) && Succ(k, tail, succ)
    case Swing(head, succ, task) =>
      UpTo(k, head, k.h) && Succ(k, head, succ) && UpTo(k, succ, k.t) && task == ValueOf(m, succ)
    case _ => true
  }

  ghost predicate PcInv(m: Mem, k: Chain, pc: PC) {
    match pc
    case Idle => true
    case Enqueuing(n, at) => EnqInv(m, k, n, at)
    case Dequeuing(at) => DeqInv(m, k, at)
    case Panicked => false
  }

  ghost predicate Distinct(threads: map<Tid, PC>) {
    forall t, u :: t in threads && u in threads && t != u && FreshOf(threads[t]).Some? ==>
      FreshOf(threads[t]) != FreshOf(threads[u])
  }

  ghost predicate Inv(c: Conf) {
    && ChainInv(c.s.m, c.k)
    && Distinct(c.s.threads)
    && forall t :: t in c.s.threads ==> PcInv(c.s.m, c.k, c.s.threads[t])
  }

  /** What every step leaves of the memory: values stay, linked nodes stay linked, h and t advance. */
  ghost predicate Grows(m: Mem, k: Chain, m': Mem, k': Chain) {
    && k.h <= k'.h && k.t <= k'.t && k.nodes <= k'.nodes && |m.heap| <= |m'.heap|
    && (forall id :: id in k.pos ==> id in k'.pos && k'.pos[id] == k.pos[id])
    && (forall id :: 0 <= id < |m.heap| ==> m'.heap[id].value == m.heap[id].value)
  }

  lemma PlacedAfterLink(k: Chain, n: NodeId)
    requires Placed(k) && n !in k.pos
    ensures Placed(k.(nodes := k.nodes + [n], pos := k.pos[n := |k.nodes|]))
  {
  }

  lemma LinkedAfterLink(m: Mem, k: Chain, n: NodeId, tail: NodeId, m': Mem, k': Chain)
    requires Placed(k) && Linked(m, k) && Fresh(m, k, n) && tail in k.pos && m.heap[tail].next.None?
    requires m'.heap == m.heap[tail := m.heap[tail].(next := Some(n))]
    requires k'.nodes == k.nodes + [n] && k'.pos == k.pos[n := |k.nodes|]
    ensures Linked(m', k')
  {
    forall id | id in k'.pos
      ensures match m'.heap[id].next
              case None => k'.pos[id] == |k'.nodes| - 1
              case Some(succ) => Succ(k', id, succ)
    {
      if id in k.pos && id != tail { assert k.nodes[k.pos[id]] == id; }
    }
  }

  lemma ChainAfterLink(m: Mem, k: Chain, n: NodeId, tail: NodeId, m': Mem, k': Chain)
    requires ChainInv(m, k) && Fresh(m, k, n) && UpTo(k, tail, k.t) && m.heap[tail].next.None?
    requires m' == m.(heap := m.heap[tail := m.heap[tail].(next := Some(n))])
    requires k' == k.(nodes := k.nodes + [n], pos := k.pos[n := |k.nodes|])
    ensures ChainInv(m', k') && Succ(k', tail, n) && Grows(m, k, m', k')
  {
    PlacedAfterLink(k, n);
    LinkedAfterLink(m, k, n, tail, m', k');
    assert k.pos[tail] == |k.nodes| - 1;
  }

  lemma ChainAfterAlloc(m: Mem, k: Chain, m': Mem)
    requires ChainInv(m, k) && m.heap <= m'.heap && m'.head == m.head && m'.tail == m.tail
    ensures ChainInv(m', k) && Grows(m, k, m', k)
  {
    assert forall id :: id in k.pos ==> m'.heap[id] == m.heap[id];
  }

  /** Head and tail may move along the chain, head never past tail. */
  lemma ChainAfterMove(m: Mem, k: Chain, m': Mem, k': Chain)
    requires ChainInv(m, k) && m'.heap == m.heap && k'.nodes == k.nodes && k'.pos == k.pos
    requires k.h <= k'.h <= k'.t < |k.nodes| && k.t <= k'.t
    requires m'.head == k.nodes[k'.h] && m'.tail == k.nodes[k'.t]
    ensures ChainInv(m', k') && Grows(m, k, m', k')
  {
  }

  lemma EnqueueStep(m: Mem, k: Chain, n: NodeId, at: EnqAt)
    requires ChainInv(m, k) && EnqInv(m, k, n, at)
    ensures var (m', pc') := ActEnqueue(m, n, at);
            var k' := Track(m, k, Enqueuing(n, at));
            ChainInv(m', k') && Grows(m, k, m', k') && PcInv(m', k', pc')
  {
    if Links(m, Enqueuing(n, at)) {
      ChainAfterLink(m, k, n, at.tail, ActEnqueue(m, n, at).0, Track(m, k, Enqueuing(n, at)));
    } else {
      ChainAfterMove(m, k, ActEnqueue(m, n, at).0, Track(m, k, Enqueuing(n, at)));
    }
  }

  lemma DequeueStep(m: Mem, k: Chain, at: DeqAt)
    requires ChainInv(m, k) && DeqInv(m, k, at)
    ensures var (m', pc') := ActDequeue(m, at);
            var k' := Track(m, k, Dequeuing(at));
            ChainInv(m', k') && Grows(m, k, m', k') && PcInv(m', k', pc')
  {
    ChainAfterMove(m, k, ActDequeue(m, at).0, Track(m, k, Dequeuing(at)));
  }

  lemma ActStep(m: Mem, k: Chain, pc: PC, call: Call)
    requires ChainInv(m, k) && PcInv(m, k, pc)
    ensures var (m', pc') := Act(m, pc, call);
            var k' := Track(m, k, pc);
            ChainInv(m', k') && Grows(m, k, m', k') && PcInv(m', k', pc')
  {
    match pc {
      case Idle => ChainAfterAlloc(m, k, Act(m, pc, call).0);
      case Enqueuing(n, at) => EnqueueStep(m, k, n, at);
      case Dequeuing(at) => DequeueStep(m, k, at);
    }
  }

  /** A thread at pc keeps its invariant through a step that leaves its unlinked node alone. */
  lemma PcInvKept(m: Mem, k: Chain, m': Mem, k': Chain, pc: PC)
    requires ChainInv(m, k) && Grows(m, k, m', k') && PcInv(m, k, pc)
    requires FreshOf(pc).Some? ==> Fresh(m', k', FreshOf(pc).value)
    ensures PcInv(m', k', pc)
  {
  }

  /** Only the thread that owns an unlinked node links it or writes its next pointer. */
  lemma FreshKept(m: Mem, k: Chain, pc: PC, call: Call, n: NodeId)
    requires ChainInv(m, k) && PcInv(m, k, pc) && Fresh(m, k, n) && FreshOf(pc) != Some(n)
    ensures Fresh(Act(m, pc, call).0, Track(m, k, pc), n)
  {
  }

  lemma FreshOfStep(m: Mem, pc: PC, call: Call)
    ensures var (_, pc') := Act(m, pc, call);
            FreshOf(pc') == FreshOf(pc) || FreshOf(pc').None? || FreshOf(pc') == Some(|m.heap|)
  {
  }

  /** A step of t leaves the invariant of u as it is, and the node u has yet to link. */
  lemma OtherStep(c: Conf, t: Tid, call: Call, u: Tid)
    requires Inv(c) && t in c.s.threads && u in c.s.threads && u != t
    ensures var d := Next(c, t, call); PcInv(d.s.m, d.k, c.s.threads[u])
    ensures FreshOf(c.s.threads[u]).Some? ==> FreshOf(c.s.threads[u]).value < |c.s.m.heap|
  {
    var pc, at := c.s.threads[t], c.s.threads[u];
    assert PcInv(c.s.m, c.k, pc) && PcInv(c.s.m, c.k, at);
    ActStep(c.s.m, c.k, pc, call);
    if FreshOf(at).Some? { FreshKept(c.s.m, c.k, pc, call, FreshOf(at).value); }
    PcInvKept(c.s.m, c.k, Act(c.s.m, pc, call).0, Track(c.s.m, c.k, pc), at);
  }

  lemma DistinctStep(threads: map<Tid, PC>, t: Tid, pc: PC, next: NodeId)
    requires Distinct(threads) && t in threads
    requires FreshOf(pc) == FreshOf(threads[t]) || FreshOf(pc).None? || FreshOf(pc) == Some(next)
    requires forall u :: u in threads && u != t && FreshOf(threads[u]).Some? ==> FreshOf(threads[u]).value < next
    ensures Distinct(threads[t := pc])
  {
  }

  lemma InvStep(c: Conf, t: Tid, call: Call)
    requires Inv(c)
    ensures Inv(Next(c, t, call))
  {
    if t in c.s.threads {
      var m, pc := c.s.m, c.s.threads[t];
      ActStep(m, c.k, pc, call);
      FreshOfStep(m, pc, call);
      forall u | u in c.s.threads && u != t
        ensures PcInv(Next(c, t, call).s.m, Next(c, t, call).k, c.s.threads[u])
        ensures FreshOf(c.s.threads[u]).Some? ==> FreshOf(c.s.threads[u]).value < |m.heap|
      {
        OtherStep(c, t, call, u);
      }
      DistinctStep(c.s.threads, t, Act(m, pc, call).1, |m.heap|);
    }
  }

  lemma {:induction false} Reachable(tids: set<Tid>, sched: Schedule)
    ensures Inv(Exec(tids, sched))
    decreases |sched|
  {
    if sched == [] {
    } else {
      var i := |sched| - 1;
      Reachable(tids, sched[..i]);
      InvStep(Exec(tids, sched[..i]), sched[i].0, sched[i].1);
    }
  }
}
