/** What every interleaving of internal/queue/lock_free_queue.go keeps: the shape of the list,
    linearizability, the meaning of length, and a bound on retries. */
module QueueTheorems {
  import opened Bytes
  import opened Cardinality
  import opened Wrappers
  import opened LockFreeQueue

  function After(tids: set<Tid>, sched: Schedule): State {
    Exec(tids, sched).s
  }

  function PcOf(s: State, t: Tid): PC {
    if t in s.threads then s.threads[t] else Idle
  }

  // ---------------------------------------------------------------------------------------------
  // Shape

  /** ids starts at head, ends in a nil next and visits no node twice; tail is its last node or the
      one before. */
  ghost predicate WellLinked(m: Mem, ids: seq<NodeId>) {
    && ids != [] && ids[0] == m.head
    && (forall i :: 0 <= i < |ids| ==> ids[i] < |m.heap|)
    && (forall i {:trigger m.heap[ids[i]]} :: 0 <= i < |ids| - 1 ==> m.heap[ids[i]].next == Some(ids[i + 1]))
    && m.heap[ids[|ids| - 1]].next == None
    && (forall i, j :: 0 <= i < j < |ids| ==> ids[i] != ids[j])
    && (m.tail == ids[|ids| - 1] || (|ids| > 1 && m.tail == ids[|ids| - 2]))
  }

  /** In every reachable state the list from head is acyclic and nil-terminated, tail is one of its
      last two nodes, and no thread has dereferenced a nil next. */
  lemma ListIsWellLinked(tids: set<Tid>, sched: Schedule) returns (ids: seq<NodeId>)
    ensures WellLinked(After(tids, sched).m, ids)
    ensures forall t :: t in After(tids, sched).threads ==> !After(tids, sched).threads[t].Panicked?
  {
    Reachable(tids, sched);
    var Conf(s, k) := Exec(tids, sched);
    ids := k.nodes[k.h..];
    ChainIsWellLinked(s.m, k);
    assert forall t :: t in s.threads ==> PcInv(s.m, k, s.threads[t]);
  }

  lemma NextInChain(m: Mem, k: Chain, i: nat)
    requires ChainInv(m, k) && i < |k.nodes|
    ensures k.nodes[i] < |m.heap|
    ensures m.heap[k.nodes[i]].next == if i + 1 < |k.nodes| then Some(k.nodes[i + 1]) else None
  {
    assert k.pos[k.nodes[i]] == i;
    match m.heap[k.nodes[i]].next {
      case None =>
      case Some(succ) => assert k.nodes[k.pos[succ]] == succ;
    }
  }

  ghost predicate LinkAt(m: Mem, ids: seq<NodeId>, i: nat)
    requires i < |ids|
  {
    ids[i] < |m.heap| && m.heap[ids[i]].next == if i + 1 < |ids| then Some(ids[i + 1]) else None
  }

  lemma SuffixLinked(m: Mem, k: Chain, ids: seq<NodeId>, i: nat)
    requires ChainInv(m, k) && ids == k.nodes[k.h..] && i < |ids|
    ensures LinkAt(m, ids, i)
  {
    NextInChain(m, k, k.h + i);
  }

  lemma SuffixDistinct(m: Mem, k: Chain, ids: seq<NodeId>, i: nat, j: nat)
    requires ChainInv(m, k) && ids == k.nodes[k.h..] && i < j < |ids|
    ensures ids[i] != ids[j]
  {
    assert k.pos[k.nodes[k.h + i]] == k.h + i && k.pos[k.nodes[k.h + j]] == k.h + j;
  }

  lemma LinksMakeList(m: Mem, ids: seq<NodeId>)
    requires ids != [] && ids[0] == m.head
    requires forall i :: 0 <= i < |ids| ==> LinkAt(m, ids, i)
    requires forall i, j :: 0 <= i < j < |ids| ==> ids[i] != ids[j]
    requires m.tail == ids[|ids| - 1] || (|ids| > 1 && m.tail == ids[|ids| - 2])
    ensures WellLinked(m, ids)
  {
    assert LinkAt(m, ids, |ids| - 1);
    forall i | 0 <= i < |ids| - 1 ensures ids[i] < |m.heap| && m.heap[ids[i]].next == Some(ids[i + 1]) {
      assert LinkAt(m, ids, i);
    }
  }

  lemma ChainIsWellLinked(m: Mem, k: Chain)
    requires ChainInv(m, k)
    ensures WellLinked(m, k.nodes[k.h..])
  {
    var ids := k.nodes[k.h..];
    forall i | 0 <= i < |ids| ensures LinkAt(m, ids, i) { SuffixLinked(m, k, ids, i); }
    forall i, j | 0 <= i < j < |ids| ensures ids[i] != ids[j] { SuffixDistinct(m, k, ids, i, j); }
    LinksMakeList(m, ids);
  }

  /** An Enqueue has linked its node behind the one tail is still at. */
  ghost predicate Catching(s: State, t: Tid) {
    t in s.threads && s.threads[t].Enqueuing? && s.threads[t].enq == EnqAt.Swing(s.m.tail)
  }

  ghost predicate Caught(s: State, k: Chain) {
    |k.nodes| == k.t + 2 ==> exists t :: Catching(s, t)
  }

  lemma CaughtStep(c: Conf, t: Tid, call: Call)
    requires Inv(c) && Caught(c.s, c.k) && t in c.s.threads
    ensures Caught(Next(c, t, call).s, Next(c, t, call).k)
  {
    var d, pc := Next(c, t, call), c.s.threads[t];
    assert PcInv(c.s.m, c.k, pc);
    if Links(c.s.m, pc) {
      assert c.k.nodes[c.k.pos[pc.enq.tail]] == pc.enq.tail;
      assert Catching(d.s, t);
    } else if !Swings(c.s.m, pc) && |c.k.nodes| == c.k.t + 2 {
      var u :| Catching(c.s, u);
      assert Catching(d.s, u);
    }
  }

  lemma {:induction false} AlwaysCaught(tids: set<Tid>, sched: Schedule)
    ensures Caught(After(tids, sched), Exec(tids, sched).k)
    decreases |sched|
  {
    if sched == [] {
    } else {
      var i := |sched| - 1;
      Reachable(tids, sched[..i]);
      AlwaysCaught(tids, sched[..i]);
      var c := Exec(tids, sched[..i]);
      if sched[i].0 in c.s.threads { CaughtStep(c, sched[i].0, sched[i].1); }
    }
  }

  /** tail falls behind only while the Enqueue that linked the last node is about to swing it: with no
      Enqueue there, tail is the last node. */
  lemma TailFallsBehind(tids: set<Tid>, sched: Schedule)
    ensures var s := After(tids, sched);
            NextOf(s.m, s.m.tail).Some? ==> exists t :: Catching(s, t)
  {
    Reachable(tids, sched);
    AlwaysCaught(tids, sched);
    NextInChain(Exec(tids, sched).s.m, Exec(tids, sched).k, Exec(tids, sched).k.t);
  }

  // ---------------------------------------------------------------------------------------------
  // The queue read along the chain

  function Values(m: Mem, ids: seq<NodeId>): seq<TaskRef> {
    seq(|ids|, i requires 0 <= i < |ids| => ValueOf(m, ids[i]))
  }

  lemma {:induction false} Pigeonhole(ids: seq<nat>, n: nat)
    requires forall i :: 0 <= i < |ids| ==> ids[i] < n
    requires forall i, j :: 0 <= i < j < |ids| ==> ids[i] != ids[j]
    ensures |ids| <= n
  {
    if ids == [] {
    } else if i :| 0 <= i < |ids| && ids[i] == n - 1 {
      var rest := ids[..i] + ids[i + 1..];
      assert forall j :: 0 <= j < |rest| ==> rest[j] == ids[if j < i then j else j + 1];
      Pigeonhole(rest, n - 1);
    } else {
      assert ids[0] < n;
      Pigeonhole(ids, n - 1);
    }
  }

  lemma {:induction false} WalkFollowsChain(m: Mem, k: Chain, i: nat, fuel: nat)
    requires ChainInv(m, k) && i < |k.nodes| && |k.nodes| - 1 - i <= fuel
    ensures Walk(m.heap, k.nodes[i], fuel) == Values(m, k.nodes[i + 1..])
    decreases fuel
  {
    assert k.pos[k.nodes[i]] == i;
    if m.heap[k.nodes[i]].next.Some? {
      assert k.nodes[i + 1] == m.heap[k.nodes[i]].next.value;
      WalkFollowsChain(m, k, i + 1, fuel - 1);
      assert k.nodes[i + 1..] == [k.nodes[i + 1]] + k.nodes[i + 2..];
    }
  }

  lemma ContentsOfChain(m: Mem, k: Chain)
    requires ChainInv(m, k)
    ensures Contents(m) == Values(m, k.nodes[k.h + 1..])
  {
    Pigeonhole(k.nodes, |m.heap|);
    WalkFollowsChain(m, k, k.h, |m.heap|);
  }

  /** What a step by a thread at pc does to the queue. */
  ghost predicate QueueEffect(m: Mem, pc: PC, m': Mem) {
    if Links(m, pc) then Contents(m') == Contents(m) + [ValueOf(m, pc.n)]
    else if Unlinks(m, pc) then Contents(m) != [] && pc.deq.task == Contents(m)[0] && Contents(m') == Contents(m)[1..]
    else Contents(m') == Contents(m)
  }

  /** m' has every node of m, with the same task. */
  ghost predicate KeepsValues(m: Mem, m': Mem) {
    |m.heap| <= |m'.heap| && forall id :: 0 <= id < |m.heap| ==> m'.heap[id].value == m.heap[id].value
  }

  lemma ValuesKept(m: Mem, m': Mem, ids: seq<NodeId>)
    requires KeepsValues(m, m') && forall i :: 0 <= i < |ids| ==> ids[i] < |m.heap|
    ensures Values(m', ids) == Values(m, ids)
  {
  }

  lemma ValuesSnoc(m: Mem, ids: seq<NodeId>, n: NodeId, i: nat)
    requires i <= |ids|
    ensures Values(m, (ids + [n])[i..]) == Values(m, ids[i..]) + [ValueOf(m, n)]
  {
  }

  /** The tasks behind position i of the chain, in the memory after a step. */
  lemma ValuesAfter(m: Mem, k: Chain, m': Mem, i: nat)
    requires ChainInv(m, k) && KeepsValues(m, m') && i <= |k.nodes|
    ensures Values(m', k.nodes[i..]) == Values(m, k.nodes[i..])
  {
    assert forall j :: 0 <= j < |k.nodes[i..]| ==> k.nodes[i..][j] == k.nodes[i + j];
    ValuesKept(m, m', k.nodes[i..]);
  }

  lemma SameContents(m: Mem, k: Chain, m': Mem, k': Chain)
    requires ChainInv(m, k) && ChainInv(m', k') && KeepsValues(m, m')
    requires k'.nodes == k.nodes && k'.h == k.h
    ensures Contents(m') == Contents(m)
  {
    ContentsOfChain(m, k);
    ContentsOfChain(m', k');
    ValuesAfter(m, k, m', k.h + 1);
  }

  lemma AppendedContents(m: Mem, k: Chain, m': Mem, k': Chain, n: NodeId)
    requires ChainInv(m, k) && ChainInv(m', k') && KeepsValues(m, m')
    requires k'.nodes == k.nodes + [n] && k'.h == k.h
    ensures Contents(m') == Contents(m) + [ValueOf(m', n)]
  {
    ContentsOfChain(m, k);
    ContentsOfChain(m', k');
    ValuesAfter(m, k, m', k.h + 1);
    ValuesSnoc(m', k.nodes, n, k.h + 1);
  }

  lemma ValuesFront(m: Mem, ids: seq<NodeId>, i: nat)
    requires i < |ids|
    ensures Values(m, ids[i..]) == [ValueOf(m, ids[i])] + Values(m, ids[i + 1..])
  {
  }

  lemma UnlinkedContents(m: Mem, k: Chain, m': Mem, k': Chain)
    requires ChainInv(m, k) && ChainInv(m', k') && KeepsValues(m, m')
    requires k'.nodes == k.nodes && k'.h == k.h + 1
    ensures Contents(m) == [ValueOf(m, m'.head)] + Contents(m')
  {
    ContentsOfChain(m, k);
    ContentsOfChain(m', k');
    ValuesAfter(m, k, m', k.h + 2);
    ValuesFront(m, k.nodes, k.h + 1);
    assert m'.head == k.nodes[k.h + 1] && k'.nodes[k'.h + 1..] == k.nodes[k.h + 2..];
  }

  lemma EffectOfAct(m: Mem, k: Chain, pc: PC, call: Call)
    requires ChainInv(m, k) && PcInv(m, k, pc)
    ensures QueueEffect(m, pc, Act(m, pc, call).0)
  {
    var m' := Act(m, pc, call).0;
    var k' := Track(m, k, pc);
    ActStep(m, k, pc, call);
    if Links(m, pc) {
      AppendedContents(m, k, m', k', pc.n);
    } else if Unlinks(m, pc) {
      UnlinkedContents(m, k, m', k');
    } else {
      SameContents(m, k, m', k');
    }
  }

  /** The queue changes at the link CAS (append) and at the head CAS (remove the front, which is the
      task returned), and at no other step of any thread. */
  lemma OnlyCasesChangeTheQueue(tids: set<Tid>, sched: Schedule, t: Tid, call: Call)
    requires t in tids
    ensures QueueEffect(After(tids, sched).m, PcOf(After(tids, sched), t), After(tids, sched + [(t, call)]).m)
  {
    Reachable(tids, sched);
    ThreadsAreTids(tids, sched);
    var c := Exec(tids, sched);
    assert (sched + [(t, call)])[..|sched|] == sched;
    EffectOfAct(c.s.m, c.k, c.s.threads[t], call);
  }

  lemma {:induction false} ThreadsAreTids(tids: set<Tid>, sched: Schedule)
    ensures After(tids, sched).threads.Keys == tids
    decreases |sched|
  {
    if sched == [] {
    } else {
      ThreadsAreTids(tids, sched[..|sched| - 1]);
    }
  }

  // ---------------------------------------------------------------------------------------------
  // Linearizability

  /** An Enqueue, or a Dequeue with what it returns. */
  datatype Op = Enq(task: TaskRef) | Deq(answer: Option<TaskRef>)
  datatype What = Invokes(call: Call) | Takes(op: Op) | Returns(op: Op)
  datatype Event = Event(who: Tid, what: What)

  /** The next step of t from position i of the schedule on */
  function NextMove(sched: Schedule, i: nat, t: Tid): (n: nat)
    requires i <= |sched|
    ensures i <= n <= |sched| && (n < |sched| ==> sched[n].0 == t)
    decreases |sched| - i
  {
    if i == |sched| || sched[i].0 == t then i else NextMove(sched, i + 1, t)
  }

  /** After i steps of the run, the next step of t is to return nil. */
  predicate AnswersNil(tids: set<Tid>, sched: Schedule, i: nat, t: Tid)
    requires i <= |sched|
  {
    var n := NextMove(sched, i, t);
    n < |sched| && ReturnsNil(After(tids, sched[..n]).m, PcOf(After(tids, sched[..n]), t))
  }

  /** What the step of a thread at pc is to its caller. A successful CAS is where an operation takes
      effect; and so is the load of line 133 when the Dequeue will return nil. */
  function EventsOf(m: Mem, pc: PC, call: Call, nilNext: bool): (whats: seq<What>)
    ensures |whats| <= 1
  {
    match pc
    case Idle => [Invokes(call)]
    case Enqueuing(n, Link(tail)) => if CanLink(m, tail) then [Takes(Enq(ValueOf(m, n)))] else []
    case Enqueuing(n, Count) => [Returns(Enq(ValueOf(m, n)))]
    case Dequeuing(LoadNext(_, _)) => if nilNext then [Takes(Deq(None))] else []
    case Dequeuing(Check(_, _, _)) => if ReturnsNil(m, pc) then [Returns(Deq(None))] else []
    case Dequeuing(Swing(head, _, task)) => if m.head == head then [Takes(Deq(Some(task)))] else []
    case Dequeuing(Uncount(task)) => [Returns(Deq(Some(task)))]
    case _ => []
  }

  function StepEvents(tids: set<Tid>, sched: Schedule, i: nat): (whats: seq<What>)
    requires i < |sched|
    ensures |whats| <= 1
  {
    var s, t := After(tids, sched[..i]), sched[i].0;
    if t in s.threads then EventsOf(s.m, s.threads[t], sched[i].1, AnswersNil(tids, sched, i + 1, t)) else []
  }

  function By(t: Tid, whats: seq<What>): seq<Event> {
    seq(|whats|, i requires 0 <= i < |whats| => Event(t, whats[i]))
  }

  /** The events of the first i steps of a run, of all threads, in order. */
  function History(tids: set<Tid>, sched: Schedule, i: nat): seq<Event>
    requires i <= |sched|
  {
    if i == 0 then [] else History(tids, sched, i - 1) + By(sched[i - 1].0, StepEvents(tids, sched, i - 1))
  }

  /** A sequential FIFO queue that performs the operations of evs where they take effect; None when one
      does not get the answer the queue gives. */
  function Replay(evs: seq<Event>): Option<seq<TaskRef>> {
    if evs == [] then Some([]) else Perform(Replay(evs[..|evs| - 1]), evs[|evs| - 1].what)
  }

  function Perform(q: Option<seq<TaskRef>>, what: What): Option<seq<TaskRef>> {
    match (q, what)
    case (Some(q), Takes(Enq(task))) => Some(q + [task])
    case (Some(q), Takes(Deq(Some(task)))) => if q != [] && q[0] == task then Some(q[1..]) else None
    case (Some(q), Takes(Deq(None))) => if q == [] then Some([]) else None
    case (_, _) => q
  }

  lemma ReplayStep(evs: seq<Event>, t: Tid, whats: seq<What>)
    requires |whats| <= 1
    ensures Replay(evs + By(t, whats)) == if whats == [] then Replay(evs) else Perform(Replay(evs), whats[0])
  {
    var more := By(t, whats);
    if whats == [] {
      assert evs + more == evs;
    } else {
      assert (evs + more)[..|evs + more| - 1] == evs;
    }
  }

  /** Steps never take head back along the chain. */
  lemma HeadAdvances(tids: set<Tid>, sched: Schedule, i: nat)
    requires i < |sched|
    ensures var c, d := Exec(tids, sched[..i]), Exec(tids, sched[..i + 1]);
            Inv(c) && d == Next(c, sched[i].0, sched[i].1) && Onward(c.k, d.k)
  {
    var c := Exec(tids, sched[..i]);
    Reachable(tids, sched[..i]);
    assert sched[..i + 1][..i] == sched[..i];
    if sched[i].0 in c.s.threads {
      assert PcInv(c.s.m, c.k, c.s.threads[sched[i].0]);
      ActStep(c.s.m, c.k, c.s.threads[sched[i].0], sched[i].1);
    }
  }

  /** k' is k or a later state of the same chain. */
  ghost predicate Onward(k: Chain, k': Chain) {
    k.h <= k'.h && forall id :: id in k.pos ==> id in k'.pos && k.pos[id] == k'.pos[id]
  }

  /** Until its next step a thread stays where it is, and the chain only grows. */
  lemma {:induction false} UntilNextMove(tids: set<Tid>, sched: Schedule, i: nat, t: Tid)
    requires i <= |sched|
    ensures var n := NextMove(sched, i, t);
            && PcOf(After(tids, sched[..n]), t) == PcOf(After(tids, sched[..i]), t)
            && Onward(Exec(tids, sched[..i]).k, Exec(tids, sched[..n]).k)
    decreases |sched| - i
  {
    if i < |sched| && sched[i].0 != t {
      HeadAdvances(tids, sched, i);
      UntilNextMove(tids, sched, i + 1, t);
    }
  }

  /** A Dequeue returns nil only if the queue was empty at the load of line 133 within that call, which
      was the step its thread took before the return. */
  lemma NilMeansEmpty(tids: set<Tid>, sched: Schedule, i: nat)
    requires i < |sched| && Takes(Deq(None)) in StepEvents(tids, sched, i)
    ensures Contents(After(tids, sched[..i]).m) == []
  {
    var t := sched[i].0;
    var n := NextMove(sched, i + 1, t);
    var c, d := Exec(tids, sched[..i]), Exec(tids, sched[..n]);
    HeadAdvances(tids, sched, i);
    UntilNextMove(tids, sched, i + 1, t);
    Reachable(tids, sched[..n]);
    assert PcInv(c.s.m, c.k, c.s.threads[t]);
    EmptyAtLoad(c.s.m, c.k, c.s.threads[t].deq.head, d.s.m, d.k);
  }

  lemma EmptyAtLoad(m: Mem, k: Chain, head: NodeId, m': Mem, k': Chain)
    requires ChainInv(m, k) && ChainInv(m', k') && Onward(k, k') && UpTo(k, head, k.h)
    requires NextOf(m, head) == None && m'.head == head
    ensures Contents(m) == []
  {
    assert k'.pos[head] == k'.h;
    assert k.nodes[k.pos[head]] == head;
    ContentsOfChain(m, k);
  }

  lemma PerformStep(m: Mem, pc: PC, call: Call, nilNext: bool, m': Mem)
    requires QueueEffect(m, pc, m')
    requires Takes(Deq(None)) in EventsOf(m, pc, call, nilNext) ==> Contents(m) == []
    ensures var whats := EventsOf(m, pc, call, nilNext);
            Some(Contents(m')) ==
              if whats == [] then Some(Contents(m)) else Perform(Some(Contents(m)), whats[0])
  {
  }

  /** Linearizability, first half: in every run the operations of all threads, performed one after the
      other where they take effect, give a sequential FIFO queue the answers they return, nil included,
      and leave it holding exactly what the list holds. */
  lemma {:induction false} EffectsAreSequentialFifo(tids: set<Tid>, sched: Schedule, i: nat)
    requires i <= |sched|
    ensures Replay(History(tids, sched, i)) == Some(Contents(After(tids, sched[..i]).m))
  {
    if i == 0 {
    } else {
      var j := i - 1;
      var c, whats := Exec(tids, sched[..j]), StepEvents(tids, sched, j);
      EffectsAreSequentialFifo(tids, sched, j);
      HeadAdvances(tids, sched, j);
      ReplayStep(History(tids, sched, j), sched[j].0, whats);
      if Takes(Deq(None)) in whats { NilMeansEmpty(tids, sched, j); }
      if sched[j].0 in c.s.threads {
        assert PcInv(c.s.m, c.k, c.s.threads[sched[j].0]);
        var pc, nilNext := c.s.threads[sched[j].0], AnswersNil(tids, sched, i, sched[j].0);
        EffectOfAct(c.s.m, c.k, pc, sched[j].1);
        PerformStep(c.s.m, pc, sched[j].1, nilNext, Act(c.s.m, pc, sched[j].1).0);
      }
    }
  }

  /** What t does in evs. */
  function Mine(evs: seq<Event>, t: Tid): seq<What> {
    if evs == [] then []
    else
      var i := |evs| - 1;
      Mine(evs[..i], t) + if evs[i].who == t then [evs[i].what] else []
  }

  function CallOf(op: Op): Call {
    match op
    case Enq(task) => Enqueue(task)
    case Deq(_) => Dequeue
  }

  /** Calls that have returned: each begins, takes effect once, and returns what it took. */
  function Whole(ops: seq<Op>): seq<What> {
    if ops == [] then []
    else
      var op := ops[|ops| - 1];
      Whole(ops[..|ops| - 1]) + [Invokes(CallOf(op)), Takes(op), Returns(op)]
  }

  /** The call of a thread at pc: it has begun, and perhaps taken effect. */
  function CallAt(m: Mem, pc: PC, nil: bool): seq<What> {
    match pc
    case Idle => []
    case Enqueuing(n, Swing(_)) => [Invokes(Enqueue(ValueOf(m, n))), Takes(Enq(ValueOf(m, n)))]
    case Enqueuing(n, Count) => [Invokes(Enqueue(ValueOf(m, n))), Takes(Enq(ValueOf(m, n)))]
    case Enqueuing(n, _) => [Invokes(Enqueue(ValueOf(m, n)))]
    case Dequeuing(Check(_, _, _)) => if nil then [Invokes(Dequeue), Takes(Deq(None))] else [Invokes(Dequeue)]
    case Dequeuing(Uncount(task)) => [Invokes(Dequeue), Takes(Deq(Some(task)))]
    case Dequeuing(_) => [Invokes(Dequeue)]
    case Panicked => []
  }

  /** The call of t that has not returned after i steps */
  function UnderWay(tids: set<Tid>, sched: Schedule, i: nat, t: Tid): seq<What>
    requires i <= |sched|
  {
    var s := After(tids, sched[..i]);
    CallAt(s.m, PcOf(s, t), AnswersNil(tids, sched, i, t))
  }

  /** The operation the step of a thread at pc returns */
  function Returned(m: Mem, pc: PC): (ops: seq<Op>)
    ensures |ops| <= 1
  {
    match pc
    case Enqueuing(n, Count) => [Enq(ValueOf(m, n))]
    case Dequeuing(Uncount(task)) => [Deq(Some(task))]
    case Dequeuing(Check(_, _, _)) => if ReturnsNil(m, pc) then [Deq(None)] else []
    case _ => []
  }

  lemma MineStep(evs: seq<Event>, u: Tid, whats: seq<What>, t: Tid)
    requires |whats| <= 1
    ensures Mine(evs + By(u, whats), t) == if u == t then Mine(evs, t) + whats else Mine(evs, t)
  {
    var more := By(u, whats);
    if whats == [] {
      assert evs + more == evs;
    } else {
      assert (evs + more)[..|evs + more| - 1] == evs;
      assert whats == [whats[0]];
    }
  }

  /** A step takes the thread's call on, or ends it. */
  lemma CallStep(m: Mem, k: Chain, pc: PC, call: Call, nil: bool, nilNext: bool)
    requires PcInv(m, k, pc) && !Act(m, pc, call).1.Panicked?
    requires ReturnsNil(m, pc) <==> nil && pc.Dequeuing? && pc.deq.Check?
    ensures var (m', pc') := Act(m, pc, call);
            CallAt(m, pc, nil) + EventsOf(m, pc, call, nilNext)
            == Whole(Returned(m, pc)) + CallAt(m', pc', nilNext)
  {
    var ops := Returned(m, pc);
    if ops != [] {
      assert Whole(ops[..0]) == [];
      assert Whole(ops) == [Invokes(CallOf(ops[0])), Takes(ops[0]), Returns(ops[0])];
    }
  }

  lemma OwnStep(tids: set<Tid>, sched: Schedule, i: nat)
    requires i < |sched| && sched[i].0 in tids
    ensures var s, t := After(tids, sched[..i]), sched[i].0;
            UnderWay(tids, sched, i, t) + StepEvents(tids, sched, i)
            == Whole(Returned(s.m, PcOf(s, t))) + UnderWay(tids, sched, i + 1, t)
  {
    var t := sched[i].0;
    var c := Exec(tids, sched[..i]);
    HeadAdvances(tids, sched, i);
    ThreadsAreTids(tids, sched[..i]);
    assert PcInv(c.s.m, c.k, c.s.threads[t]);
    ActStep(c.s.m, c.k, c.s.threads[t], sched[i].1);
    CallStep(c.s.m, c.k, c.s.threads[t], sched[i].1, AnswersNil(tids, sched, i, t), AnswersNil(tids, sched, i + 1, t));
  }

  /** A step of another thread does not touch it. */
  lemma OtherCallStep(m: Mem, k: Chain, pc: PC, nil: bool, m': Mem, k': Chain)
    requires ChainInv(m, k) && PcInv(m, k, pc) && Grows(m, k, m', k')
    ensures CallAt(m', pc, nil) == CallAt(m, pc, nil)
  {
  }

  lemma OtherStays(tids: set<Tid>, sched: Schedule, i: nat, t: Tid)
    requires i < |sched| && sched[i].0 != t && t in tids
    ensures UnderWay(tids, sched, i + 1, t) == UnderWay(tids, sched, i, t)
  {
    var c := Exec(tids, sched[..i]);
    HeadAdvances(tids, sched, i);
    ThreadsAreTids(tids, sched[..i]);
    var u := sched[i].0;
    if u in c.s.threads {
      var d := Next(c, u, sched[i].1);
      assert PcInv(c.s.m, c.k, c.s.threads[u]) && PcInv(c.s.m, c.k, c.s.threads[t]);
      ActStep(c.s.m, c.k, c.s.threads[u], sched[i].1);
      OtherCallStep(c.s.m, c.k, c.s.threads[t], AnswersNil(tids, sched, i, t), d.s.m, d.k);
    }
  }

  /** Linearizability, second half: in every run, and for every thread, the history is a sequence of
      whole calls, each taking effect exactly once, between its invocation and its return, as the
      operation it returns; followed by at most one call that is under way. */
  lemma {:induction false} CallsTakeEffectOnce(tids: set<Tid>, sched: Schedule, i: nat, t: Tid) returns (ops: seq<Op>)
    requires i <= |sched| && t in tids
    ensures Mine(History(tids, sched, i), t) == Whole(ops) + UnderWay(tids, sched, i, t)
  {
    if i == 0 {
      ops := [];
    } else {
      var j := i - 1;
      var u, whats := sched[j].0, StepEvents(tids, sched, j);
      ops := CallsTakeEffectOnce(tids, sched, j, t);
      MineStep(History(tids, sched, j), u, whats, t);
      if u == t {
        OwnStep(tids, sched, j);
        var op := Returned(After(tids, sched[..j]).m, PcOf(After(tids, sched[..j]), t));
        Associate(Whole(ops), UnderWay(tids, sched, j, t), whats);
        Associate(Whole(ops), Whole(op), UnderWay(tids, sched, i, t));
        WholeConcat(ops, op);
        ops := ops + op;
      } else {
        OtherStays(tids, sched, j, t);
      }
    }
  }

  lemma WholeConcat(ops: seq<Op>, op: seq<Op>)
    requires |op| <= 1
    ensures Whole(ops + op) == Whole(ops) + Whole(op)
  {
    if op == [] {
      assert ops + op == ops;
    } else {
      assert (ops + op)[..|ops|] == ops && op[..0] == [];
    }
  }

  /** The history of t is whole calls, and then at most one that is under way. */
  ghost predicate InTurn(tids: set<Tid>, sched: Schedule, t: Tid) {
    exists ops :: Mine(History(tids, sched, |sched|), t) == Whole(ops) + UnderWay(tids, sched, |sched|, t)
  }

  lemma CallsAreInTurn(tids: set<Tid>, sched: Schedule, t: Tid)
    requires t in tids
    ensures InTurn(tids, sched, t)
  {
    var ops := CallsTakeEffectOnce(tids, sched, |sched|, t);
  }

  /** Linearizability of every run: the operations take effect one after the other, each between the
      invocation and the return of its call, as on a sequential FIFO queue. */
  lemma {:induction false} Linearizable(tids: set<Tid>, sched: Schedule)
    ensures Replay(History(tids, sched, |sched|)) == Some(Contents(After(tids, sched).m))
    ensures forall t :: t in tids ==> InTurn(tids, sched, t)
  {
    assert sched[..|sched|] == sched;
    EffectsAreSequentialFifo(tids, sched, |sched|);
    forall t | t in tids ensures InTurn(tids, sched, t) { CallsAreInTurn(tids, sched, t); }
  }

  // ---------------------------------------------------------------------------------------------
  // What length means

  /** Enqueues that have linked their node but not yet added 1 to length. */
  ghost function Uncounted(threads: map<Tid, PC>): set<Tid> {
    set t | t in threads && threads[t].Enqueuing? && (threads[t].enq.Swing? || threads[t].enq.Count?)
  }

  /** Dequeues that have unlinked a node but not yet taken 1 from length. */
  ghost function Undiscounted(threads: map<Tid, PC>): set<Tid> {
    set t | t in threads && threads[t].Dequeuing? && threads[t].deq.Uncount?
  }

  /** What length should read. */
  ghost function TrueLength(s: State): int {
    |Contents(s.m)| - |Uncounted(s.threads)| + |Undiscounted(s.threads)|
  }

  lemma TrueLengthStep(s: State, k: Chain, t: Tid, call: Call)
    requires ChainInv(s.m, k) && t in s.threads && PcInv(s.m, k, s.threads[t])
    ensures TrueLength(Step(s, t, call)) - TrueLength(s) ==
            One(s.threads[t].Enqueuing? && s.threads[t].enq.Count?)
            - One(s.threads[t].Dequeuing? && s.threads[t].deq.Uncount?)
  {
    EffectOfAct(s.m, k, s.threads[t], call);
    var threads' := s.threads[t := Act(s.m, s.threads[t], call).1];
    CardinalityStep(Uncounted(s.threads), Uncounted(threads'), t);
    CardinalityStep(Undiscounted(s.threads), Undiscounted(threads'), t);
  }

  lemma LengthOfAct(m: Mem, pc: PC, call: Call)
    ensures Act(m, pc, call).0.length ==
            if pc.Enqueuing? && pc.enq.Count? then Int32(m.length + 1)
            else if pc.Dequeuing? && pc.deq.Uncount? then Int32(m.length - 1)
            else m.length
  {
  }

  lemma Int32Shift(x: int, d: int)
    ensures Int32(Int32(x) + d) == Int32(x + d)
  {
  }

  lemma LengthStep(s: State, k: Chain, t: Tid, call: Call)
    requires ChainInv(s.m, k) && t in s.threads && PcInv(s.m, k, s.threads[t])
    requires s.m.length == Int32(TrueLength(s))
    ensures Step(s, t, call).m.length == Int32(TrueLength(Step(s, t, call)))
  {
    TrueLengthStep(s, k, t, call);
    LengthOfAct(s.m, s.threads[t], call);
    Int32Shift(TrueLength(s), TrueLength(Step(s, t, call)) - TrueLength(s));
  }

  /** In every reachable state length is, as a 32-bit integer, the size of the queue less the
      enqueues that linked but have not counted, plus the dequeues that unlinked but have not
      discounted. */
  lemma {:induction false} LengthIsAccounted(tids: set<Tid>, sched: Schedule)
    ensures After(tids, sched).m.length == Int32(TrueLength(After(tids, sched)))
    decreases |sched|
  {
    if sched == [] {
      assert Uncounted(Init(tids).threads) == {} && Undiscounted(Init(tids).threads) == {};
    } else {
      var i := |sched| - 1;
      LengthIsAccounted(tids, sched[..i]);
      Reachable(tids, sched[..i]);
      var Conf(s, k) := Exec(tids, sched[..i]);
      if sched[i].0 in s.threads { LengthStep(s, k, sched[i].0, sched[i].1); }
    }
  }

  predicate IsEmpty(m: Mem) {
    m.length == 0
  }

  /** IsEmpty reads true exactly when the queue is empty whenever no operation is in flight; and it
      never calls a queue empty that is not, unless some Enqueue has linked and not yet counted.
      Both as long as the 32-bit length does not wrap around. */
  lemma WhenIsEmptyIsRight(tids: set<Tid>, sched: Schedule)
    ensures var s := After(tids, sched);
            Uncounted(s.threads) == {} && |Contents(s.m)| + |Undiscounted(s.threads)| < 0x1_0000_0000 ==>
              && (IsEmpty(s.m) ==> Contents(s.m) == [])
              && (Undiscounted(s.threads) == {} ==> (IsEmpty(s.m) <==> Contents(s.m) == []))
  {
    LengthIsAccounted(tids, sched);
  }

  // ---------------------------------------------------------------------------------------------
  // Progress

  /** Nodes unlinked, advances of tail, nodes linked. */
  datatype Mark = Mark(h: nat, t: nat, c: nat)

  function Now(k: Chain): Mark { Mark(k.h, k.t, |k.nodes|) }

  /** The progress made when the current iteration of t's current call began. */
  function MarkOf(tids: set<Tid>, sched: Schedule, t: Tid): Mark {
    if sched == [] then Mark(0, 0, 1)
    else
      var i := |sched| - 1;
      var s := After(tids, sched[..i]);
      if sched[i].0 == t && (PcOf(s, t).Idle? || Retries(s.m, PcOf(s, t))) then Now(Exec(tids, sched).k)
      else MarkOf(tids, sched[..i], t)
  }

  /** How often t has gone back to retry. */
  function RetryCount(tids: set<Tid>, sched: Schedule, t: Tid): nat {
    if sched == [] then 0
    else
      var i := |sched| - 1;
      var s := After(tids, sched[..i]);
      RetryCount(tids, sched[..i], t) + if sched[i].0 == t && Retries(s.m, PcOf(s, t)) then 1 else 0
  }

  /** How many nodes have been linked. */
  function LinkCount(tids: set<Tid>, sched: Schedule): nat {
    if sched == [] then 0
    else
      var i := |sched| - 1;
      var s := After(tids, sched[..i]);
      LinkCount(tids, sched[..i]) + if Links(s.m, PcOf(s, sched[i].0)) then 1 else 0
  }

  /** What a thread has seen since mark of the nodes it holds. */
  ghost predicate SeenSince(k: Chain, mark: Mark, pc: PC) {
    && mark.h <= k.h && mark.t <= k.t && mark.c <= |k.nodes|
    && match pc
       case Enqueuing(_, LoadNext(tail)) => tail in k.pos && mark.t <= k.pos[tail]
       case Enqueuing(_, Check(tail, next)) =>
         tail in k.pos && mark.t <= k.pos[tail] && (next.None? ==> mark.c <= k.pos[tail] + 1)
       case Enqueuing(_, Link(tail)) => tail in k.pos && mark.c <= k.pos[tail] + 1
       case Enqueuing(_, Help(tail, _)) => tail in k.pos && mark.t <= k.pos[tail]
       case Dequeuing(LoadTail(head)) => head in k.pos && mark.h <= k.pos[head]
       case Dequeuing(LoadNext(head, tail)) =>
         head in k.pos && mark.h <= k.pos[head] && tail in k.pos && mark.t <= k.pos[tail]
       case Dequeuing(Check(head, tail, _)) =>
         head in k.pos && mark.h <= k.pos[head] && tail in k.pos && mark.t <= k.pos[tail]
       case Dequeuing(Help(tail, _)) => tail in k.pos && mark.t <= k.pos[tail]
       case Dequeuing(Swing(head, _, _)) => head in k.pos && mark.h <= k.pos[head]
       case _ => true
  }

  function Total(mark: Mark): nat { mark.h + mark.t + mark.c }

  /** A retry means that a CAS succeeded during the iteration it ends. */
  lemma RetryMeansProgress(m: Mem, k: Chain, pc: PC, call: Call, mark: Mark)
    requires ChainInv(m, k) && PcInv(m, k, pc) && SeenSince(k, mark, pc) && Retries(m, pc)
    ensures Total(mark) < Total(Now(Track(m, k, pc)))
    ensures SeenSince(Track(m, k, pc), Now(Track(m, k, pc)), Act(m, pc, call).1)
  {
  }

  lemma SeenSinceStep(m: Mem, k: Chain, pc: PC, call: Call, mark: Mark)
    requires ChainInv(m, k) && PcInv(m, k, pc) && SeenSince(k, mark, pc) && !Retries(m, pc) && !pc.Idle?
    ensures SeenSince(Track(m, k, pc), mark, Act(m, pc, call).1)
  {
  }

  /** Another thread's step takes back nothing that t has seen. */
  lemma SeenSinceOther(m: Mem, k: Chain, m': Mem, k': Chain, pc: PC, mark: Mark)
    requires Grows(m, k, m', k') && SeenSince(k, mark, pc)
    ensures SeenSince(k', mark, pc)
  {
  }

  lemma OwnMark(m: Mem, k: Chain, pc: PC, call: Call, mark: Mark)
    requires ChainInv(m, k) && PcInv(m, k, pc) && SeenSince(k, mark, pc)
    ensures var k' := Track(m, k, pc);
            var mark' := if pc.Idle? || Retries(m, pc) then Now(k') else mark;
            && SeenSince(k', mark', Act(m, pc, call).1)
            && Total(mark) + One(Retries(m, pc)) <= Total(mark')
  {
    if Retries(m, pc) {
      RetryMeansProgress(m, k, pc, call, mark);
    } else if !pc.Idle? {
      SeenSinceStep(m, k, pc, call, mark);
    }
  }

  lemma MarkStep(c: Conf, u: Tid, call: Call, t: Tid, mark: Mark)
    requires Inv(c) && u in c.s.threads && SeenSince(c.k, mark, PcOf(c.s, t))
    ensures var d := Next(c, u, call);
            var ends := u == t && (PcOf(c.s, t).Idle? || Retries(c.s.m, PcOf(c.s, t)));
            var mark' := if ends then Now(d.k) else mark;
            && SeenSince(d.k, mark', PcOf(d.s, t))
            && Total(mark) + One(u == t && Retries(c.s.m, PcOf(c.s, t))) <= Total(mark')
  {
    var pc := c.s.threads[u];
    if u == t {
      OwnMark(c.s.m, c.k, pc, call, mark);
    } else {
      ActStep(c.s.m, c.k, pc, call);
      SeenSinceOther(c.s.m, c.k, Act(c.s.m, pc, call).0, Track(c.s.m, c.k, pc), PcOf(c.s, t), mark);
    }
  }

  lemma {:induction false} RetriesAreMarked(tids: set<Tid>, sched: Schedule, t: Tid)
    requires t in tids
    ensures SeenSince(Exec(tids, sched).k, MarkOf(tids, sched, t), PcOf(After(tids, sched), t))
    ensures RetryCount(tids, sched, t) < Total(MarkOf(tids, sched, t))
    decreases |sched|
  {
    if sched == [] {
    } else {
      var i := |sched| - 1;
      RetriesAreMarked(tids, sched[..i], t);
      Reachable(tids, sched[..i]);
      ThreadsAreTids(tids, sched[..i]);
      var c := Exec(tids, sched[..i]);
      if sched[i].0 in c.s.threads { MarkStep(c, sched[i].0, sched[i].1, t, MarkOf(tids, sched[..i], t)); }
    }
  }

  /** How many steps of the run were over when the current iteration of t's current call began. */
  function StartOf(tids: set<Tid>, sched: Schedule, t: Tid): (i: nat)
    ensures i <= |sched|
  {
    if sched == [] then 0
    else
      var i := |sched| - 1;
      var s := After(tids, sched[..i]);
      if sched[i].0 == t && (PcOf(s, t).Idle? || Retries(s.m, PcOf(s, t))) then |sched|
      else StartOf(tids, sched[..i], t)
  }

  lemma {:induction false} MarkAtStart(tids: set<Tid>, sched: Schedule, t: Tid)
    ensures MarkOf(tids, sched, t) == Now(Exec(tids, sched[..StartOf(tids, sched, t)]).k)
    decreases |sched|
  {
    if sched == [] {
    } else {
      var i := |sched| - 1;
      var start := StartOf(tids, sched, t);
      MarkAtStart(tids, sched[..i], t);
      assert sched[..|sched|] == sched;
      assert start <= i ==> sched[..i][..start] == sched[..start];
    }
  }

  /** Step i of the run succeeds in a CAS. */
  predicate CasAt(tids: set<Tid>, sched: Schedule, i: nat)
    requires i < |sched|
  {
    var s := After(tids, sched[..i]);
    var pc := PcOf(s, sched[i].0);
    Links(s.m, pc) || Unlinks(s.m, pc) || Swings(s.m, pc)
  }

  /** Only a CAS that succeeds is progress. */
  lemma {:induction false} CasBetween(tids: set<Tid>, sched: Schedule, a: nat, b: nat) returns (i: nat)
    requires a <= b <= |sched| && Now(Exec(tids, sched[..a]).k) != Now(Exec(tids, sched[..b]).k)
    ensures a <= i < b && CasAt(tids, sched, i)
    decreases b
  {
    i := b - 1;
    if !CasAt(tids, sched, i) {
      assert sched[..b][..i] == sched[..i];
      i := CasBetween(tids, sched, a, i);
    }
  }

  /** Lock-freedom: in every run, when a step of t is a retry, some CAS has succeeded since the iteration it
      ends began; step i of the run, which may be this one. */
  lemma RetryFollowsCas(tids: set<Tid>, sched: Schedule, t: Tid, call: Call) returns (i: nat)
    requires t in tids && Retries(After(tids, sched).m, PcOf(After(tids, sched), t))
    ensures var run := sched + [(t, call)];
            StartOf(tids, sched, t) <= i < |run| && CasAt(tids, run, i)
  {
    var run, start := sched + [(t, call)], StartOf(tids, sched, t);
    var c := Exec(tids, sched);
    assert run[..|sched|] == sched && run[..|run|] == run && run[..start] == sched[..start];
    Reachable(tids, sched);
    ThreadsAreTids(tids, sched);
    assert PcInv(c.s.m, c.k, c.s.threads[t]);
    RetriesAreMarked(tids, sched, t);
    MarkAtStart(tids, sched, t);
    RetryMeansProgress(c.s.m, c.k, c.s.threads[t], call, MarkOf(tids, sched, t));
    i := CasBetween(tids, run, start, |run|);
  }

  lemma {:induction false} LinksAreCounted(tids: set<Tid>, sched: Schedule)
    ensures |Exec(tids, sched).k.nodes| == LinkCount(tids, sched) + 1
    decreases |sched|
  {
    if sched == [] {
    } else {
      LinksAreCounted(tids, sched[..|sched| - 1]);
    }
  }

  /** Lock-freedom with a bound: in every run the retries of one thread, over all its calls, number
      at most three times the nodes linked so far. */
  lemma RetriesAreBounded(tids: set<Tid>, sched: Schedule, t: Tid)
    requires t in tids
    ensures RetryCount(tids, sched, t) <= 3 * LinkCount(tids, sched)
  {
    RetriesAreMarked(tids, sched, t);
    LinksAreCounted(tids, sched);
    Reachable(tids, sched);
  }
}
