/** The poller of module Poller over two queues of module LockFreeQueue: every atomic access of a Trigger,
    of an UrgentTrigger or of Polling, inside Enqueue and Dequeue too, is one step. Each such step is a
    step of Poller's model, or is invisible there; so what Poller proves holds of the real queues. */
module PollerQueues {
  import opened Cardinality
  import opened Wrappers
  import Q = LockFreeQueue
  import QT = QueueTheorems
  import P = Poller

  type Task = nat
  type Tid = nat

  /** A queue, as the run of LockFreeQueue that has led to its state, by the threads of tids. posted and
      ran are history, as in Poller. */
  datatype TaskQueue = TaskQueue(tids: set<Tid>, sched: Q.Schedule, posted: seq<Task>, ran: seq<Task>)

  datatype Caller =
    | Idle
    | Enqueuing(lane: P.Lane)
    | Casing
    | Writing

  datatype Loop =
    | Waiting(msec: int)
    | Reading
    | Calling(lane: P.Lane, i: nat)   // about to call Dequeue
    | Dequeuing(lane: P.Lane, i: nat) // in Dequeue
    | Running(lane: P.Lane, i: nat, task: Task)
    | Storing
    | Testing(lane: P.Lane)
    | Casing
    | Writing
    | Stopped

  /** me is the goroutine of Polling. */
  datatype World = World(urgent: TaskQueue, low: TaskQueue, wakeupCall: int, efd: nat,
                         callers: map<Tid, Caller>, me: Tid, loop: Loop)

  function Of(w: World, lane: P.Lane): TaskQueue {
    if lane == P.Urgent then w.urgent else w.low
  }

  function With(w: World, lane: P.Lane, q: TaskQueue): World {
    if lane == P.Urgent then w.(urgent := q) else w.(low := q)
  }

  function Mem(q: TaskQueue): Q.Mem { QT.After(q.tids, q.sched).m }

  function Pc(q: TaskQueue, t: Tid): Q.PC { QT.PcOf(QT.After(q.tids, q.sched), t) }

  /** t takes a step in q. */
  function Advance(q: TaskQueue, t: Tid, call: Q.Call): TaskQueue {
    q.(sched := q.sched + [(t, call)],
       posted := q.posted + if Q.Links(Mem(q), Pc(q, t)) then [Q.ValueOf(Mem(q), Pc(q, t).n)] else [])
  }

  function CallerStep(w: World, t: Tid, lane: P.Lane, task: Task): World {
    if t !in w.callers then w
    else
      match w.callers[t]
      case Idle =>
        With(w, lane, Advance(Of(w, lane), t, Q.Enqueue(task))).(callers := w.callers[t := Enqueuing(lane)])
      case Enqueuing(l) =>
        var q := Advance(Of(w, l), t, Q.Dequeue);
        With(w, l, q).(callers := w.callers[t := if Pc(q, t).Idle? then Caller.Casing else Enqueuing(l)])
      case Casing =>
        if w.wakeupCall == 0 then w.(wakeupCall := 1, callers := w.callers[t := Caller.Writing])
        else w.(callers := w.callers[t := Idle])
      case Writing => w.(efd := P.Signal(w.efd), callers := w.callers[t := Idle])
  }

  /** Where Polling goes when Dequeue has returned nil. */
  function AfterNil(lane: P.Lane): Loop {
    if lane == P.Urgent then Calling(P.Low, 0) else Storing
  }

  function LoopStep(w: World, choice: P.Choice): World {
    match w.loop
    case Waiting(_) =>
      (match choice
       case Nothing => w.(loop := Waiting(-1))
       case Others => w.(loop := Waiting(0))
       case Wakes => if w.efd > 0 then w.(loop := Reading) else w
       case Shutdown => w.(loop := Stopped))
    case Reading => w.(efd := 0, loop := Calling(P.Urgent, 0))
    case Calling(lane, i) =>
      if lane == P.Low && i >= P.MAX_ASYNC_TASKS_AT_ONE_TIME then w.(loop := Storing)
      else With(w, lane, Advance(Of(w, lane), w.me, Q.Dequeue)).(loop := Dequeuing(lane, i))
    case Dequeuing(lane, i) =>
      var pc := Pc(Of(w, lane), w.me);
      With(w, lane, Advance(Of(w, lane), w.me, Q.Dequeue)).(
        loop := if pc.Dequeuing? && pc.deq.Uncount? then Running(lane, i, pc.deq.task)
                else if Q.ReturnsNil(Mem(Of(w, lane)), pc) then AfterNil(lane)
                else w.loop)
    case Running(lane, i, task) =>
      var q := Of(w, lane);
      With(w, lane, q.(ran := q.ran + [task])).(
        loop := if choice == P.Shutdown then Stopped else Calling(lane, i + 1))
    case Storing => w.(wakeupCall := 0, loop := Testing(P.Low))
    case Testing(lane) =>
      w.(loop := if !QT.IsEmpty(Mem(Of(w, lane))) then Loop.Casing
                 else if lane == P.Low then Testing(P.Urgent)
                 else Waiting(0))
    case Casing =>
      if w.wakeupCall == 0 then w.(wakeupCall := 1, loop := Loop.Writing) else w.(loop := Waiting(0))
    case Writing => w.(efd := P.Signal(w.efd), loop := Waiting(0))
    case Stopped => w
  }

  function Step(w: World, move: P.Move): World {
    match move
    case CallerMoves(t, lane, task) => CallerStep(w, t, lane, task)
    case LoopMoves(choice) => LoopStep(w, choice)
  }

  function Init(tids: set<Tid>, me: Tid): World {
    var q := TaskQueue(tids + {me}, [], [], []);
    World(q, q, 0, 0, map t | t in tids :: Idle, me, Waiting(-1))
  }

  function Exec(tids: set<Tid>, me: Tid, moves: seq<P.Move>): World {
    if moves == [] then Init(tids, me) else Step(Exec(tids, me, moves[..|moves| - 1]), moves[|moves| - 1])
  }

  // ---------------------------------------------------------------------------------------------
  // The state of Poller's model that a world stands for

  ghost function AbsQueue(q: TaskQueue): P.Queue {
    P.Queue(Q.Contents(Mem(q)), QT.TrueLength(QT.After(q.tids, q.sched)), q.posted, q.ran)
  }

  /** An Enqueue has linked its task, or not. */
  function AbsEnqueue(q: TaskQueue, t: Tid, lane: P.Lane): P.Caller {
    var pc := Pc(q, t);
    if Q.FreshOf(pc).Some? then P.Linking(lane, Q.ValueOf(Mem(q), pc.n)) else P.Counting(lane)
  }

  function AbsCaller(w: World, t: Tid): P.Caller
    requires t in w.callers
  {
    match w.callers[t]
    case Idle => P.Caller.Idle
    case Enqueuing(lane) => AbsEnqueue(Of(w, lane), t, lane)
    case Casing => P.Caller.Casing
    case Writing => P.Caller.Writing
  }

  /** A Dequeue has not unlinked anything, or unlinked a task and not yet discounted it, or loaded a nil
      that it will return. */
  function AbsDequeue(pc: Q.PC, lane: P.Lane, i: nat): P.Loop {
    match pc
    case Dequeuing(Uncount(task)) => P.Discounting(lane, i, task)
    case Dequeuing(Check(_, _, None)) => P.AfterNil(lane)
    case _ => P.Loop.Dequeuing(lane, i)
  }

  function AbsLoop(w: World): P.Loop {
    match w.loop
    case Waiting(msec) => P.Waiting(msec)
    case Reading => P.Reading
    case Calling(lane, i) => P.Loop.Dequeuing(lane, i)
    case Dequeuing(lane, i) => AbsDequeue(Pc(Of(w, lane), w.me), lane, i)
    case Running(lane, i, task) => P.Running(lane, i, task)
    case Storing => P.Storing
    case Testing(lane) => P.Testing(lane)
    case Casing => P.Loop.Casing
    case Writing => P.Loop.Writing
    case Stopped => P.Stopped
  }

  ghost function Abs(w: World): P.State {
    P.State(AbsQueue(w.urgent), AbsQueue(w.low), w.wakeupCall, w.efd,
            map t | t in w.callers :: AbsCaller(w, t), AbsLoop(w))
  }

  // ---------------------------------------------------------------------------------------------
  // Invariants

  /** The only consumer finds head where it loaded it. */
  ghost predicate AtHead(m: Q.Mem, at: Q.DeqAt) {
    match at
    case LoadTail(head) => head == m.head
    case LoadNext(head, _) => head == m.head
    case Check(head, tail, next) => head == m.head && (next.None? ==> head == tail)
    case Swing(head, _, _) => head == m.head
    case Help(tail, _) => tail == m.head
    case _ => true
  }

  /** Polling, as me, is the only consumer of the queue. */
  ghost predicate Sound(q: TaskQueue, tids: set<Tid>, me: Tid) {
    && q.tids == tids + {me}
    && (forall t :: t in tids ==> !Pc(q, t).Dequeuing?)
    && !Pc(q, me).Enqueuing?
    && (Pc(q, me).Dequeuing? ==> AtHead(Mem(q), Pc(q, me).deq))
  }

  /** Threads are in the queue exactly when the program says so. */
  ghost predicate Matches(w: World, lane: P.Lane) {
    && (forall t :: t in w.callers ==> (Pc(Of(w, lane), t).Enqueuing? <==> w.callers[t] == Enqueuing(lane)))
    && (Pc(Of(w, lane), w.me).Dequeuing? <==> w.loop.Dequeuing? && w.loop.lane == lane)
  }

  ghost predicate LaneInv(w: World, lane: P.Lane) {
    Sound(Of(w, lane), w.callers.Keys, w.me) && Matches(w, lane)
  }

  ghost predicate Inv(w: World) {
    w.me !in w.callers && forall lane: P.Lane :: LaneInv(w, lane)
  }

  /** A Dequeue of the low queue is one of the 256 of this round. */
  ghost predicate InTurn(w: World) {
    w.loop.Dequeuing? && w.loop.lane == P.Low ==> w.loop.i < P.MAX_ASYNC_TASKS_AT_ONE_TIME
  }

  /** What a step of t does to the queue and to t. */
  ghost predicate StepsTo(q: TaskQueue, t: Tid, call: Q.Call, q': TaskQueue) {
    var pc := Pc(q, t);
    && (Mem(q'), Pc(q', t)) == Q.Act(Mem(q), pc, call) && !Pc(q', t).Panicked?
    && QT.QueueEffect(Mem(q), pc, Mem(q'))
    && AbsQueue(q').length - AbsQueue(q).length ==
         One(pc.Enqueuing? && pc.enq.Count?) - One(pc.Dequeuing? && pc.deq.Uncount?)
    && (pc.Enqueuing? ==> Q.ValueOf(Mem(q'), pc.n) == Q.ValueOf(Mem(q), pc.n))
    && q'.tids == q.tids && (forall u :: u != t ==> Pc(q', u) == Pc(q, u))
    && q'.posted == q.posted + (if Q.Links(Mem(q), pc) then [Q.ValueOf(Mem(q), pc.n)] else []) && q'.ran == q.ran
  }

  lemma NodeAllocated(m: Q.Mem, k: Q.Chain, pc: Q.PC)
    requires Q.ChainInv(m, k) && Q.PcInv(m, k, pc) && pc.Enqueuing?
    ensures pc.n < |m.heap|
  {
  }

  lemma ActSteps(m: Q.Mem, k: Q.Chain, pc: Q.PC, call: Q.Call)
    requires Q.ChainInv(m, k) && Q.PcInv(m, k, pc)
    ensures var (m', pc') := Q.Act(m, pc, call);
            && !pc'.Panicked? && QT.QueueEffect(m, pc, m')
            && forall id :: 0 <= id < |m.heap| ==> Q.ValueOf(m', id) == Q.ValueOf(m, id)
  {
    Q.ActStep(m, k, pc, call);
    QT.EffectOfAct(m, k, pc, call);
  }

  /** The state of the queue before and after one more step */
  lemma OneMore(q: TaskQueue, t: Tid, call: Q.Call)
    requires t in q.tids
    ensures var c, d := Q.Exec(q.tids, q.sched), Q.Exec(q.tids, Advance(q, t, call).sched);
            && Q.Inv(c) && Q.Inv(d) && t in c.s.threads && c.s.threads.Keys == d.s.threads.Keys == q.tids
            && d == Q.Next(c, t, call)
  {
    var sched := q.sched + [(t, call)];
    assert sched[..|sched| - 1] == q.sched;
    Q.Reachable(q.tids, q.sched);
    Q.Reachable(q.tids, sched);
    QT.ThreadsAreTids(q.tids, q.sched);
    QT.ThreadsAreTids(q.tids, sched);
  }

  lemma LengthMoves(q: TaskQueue, t: Tid, call: Q.Call)
    requires t in q.tids
    ensures var pc := Pc(q, t);
            AbsQueue(Advance(q, t, call)).length - AbsQueue(q).length ==
              One(pc.Enqueuing? && pc.enq.Count?) - One(pc.Dequeuing? && pc.deq.Uncount?)
  {
    OneMore(q, t, call);
    var c := Q.Exec(q.tids, q.sched);
    assert Q.PcInv(c.s.m, c.k, c.s.threads[t]);
    QT.TrueLengthStep(c.s, c.k, t, call);
  }

  lemma AdvanceActs(q: TaskQueue, t: Tid, call: Q.Call)
    requires t in q.tids
    ensures var q' := Advance(q, t, call);
            (Mem(q'), Pc(q', t)) == Q.Act(Mem(q), Pc(q, t), call) && forall u :: u != t ==> Pc(q', u) == Pc(q, u)
  {
    OneMore(q, t, call);
  }

  lemma ActEffect(q: TaskQueue, t: Tid, call: Q.Call)
    requires t in q.tids
    ensures var pc := Pc(q, t);
            var (m', pc') := Q.Act(Mem(q), pc, call);
            && !pc'.Panicked? && QT.QueueEffect(Mem(q), pc, m')
            && (pc.Enqueuing? ==> Q.ValueOf(m', pc.n) == Q.ValueOf(Mem(q), pc.n))
  {
    OneMore(q, t, call);
    var c := Q.Exec(q.tids, q.sched);
    assert Q.PcInv(c.s.m, c.k, c.s.threads[t]);
    ActSteps(c.s.m, c.k, Pc(q, t), call);
    if Pc(q, t).Enqueuing? { NodeAllocated(c.s.m, c.k, Pc(q, t)); }
  }

  lemma AdvanceSteps(q: TaskQueue, t: Tid, call: Q.Call)
    requires t in q.tids
    ensures StepsTo(q, t, call, Advance(q, t, call))
  {
    AdvanceActs(q, t, call);
    ActEffect(q, t, call);
    LengthMoves(q, t, call);
  }

  /** Only the consumer moves head. */
  lemma HeadStays(c: Q.Conf, t: Tid, call: Q.Call, me: Tid)
    requires Q.Inv(c) && t in c.s.threads && me in c.s.threads
    requires t != me ==> !c.s.threads[t].Dequeuing?
    requires c.s.threads[me].Dequeuing? ==> AtHead(c.s.m, c.s.threads[me].deq)
    requires t == me ==> !c.s.threads[me].Enqueuing?
    ensures var d := Q.Next(c, t, call);
            d.s.threads[me].Dequeuing? ==> AtHead(d.s.m, d.s.threads[me].deq)
  {
    assert Q.PcInv(c.s.m, c.k, c.s.threads[t]) && Q.PcInv(c.s.m, c.k, c.s.threads[me]);
  }

  lemma ConsumerStays(q: TaskQueue, t: Tid, call: Q.Call, me: Tid)
    requires t in q.tids && me in q.tids
    requires if t == me then !Pc(q, me).Enqueuing? else !Pc(q, t).Dequeuing?
    requires Pc(q, me).Dequeuing? ==> AtHead(Mem(q), Pc(q, me).deq)
    ensures var q' := Advance(q, t, call);
            Pc(q', me).Dequeuing? ==> AtHead(Mem(q'), Pc(q', me).deq)
  {
    OneMore(q, t, call);
    HeadStays(Q.Exec(q.tids, q.sched), t, call, me);
  }

  lemma AdvanceQueue(q: TaskQueue, tids: set<Tid>, me: Tid, t: Tid, call: Q.Call)
    requires Sound(q, tids, me) && me !in tids && t in tids + {me}
    requires t == me ==> call == Q.Dequeue
    requires t in tids && Pc(q, t).Idle? ==> call.Enqueue?
    ensures Sound(Advance(q, t, call), tids, me) && StepsTo(q, t, call, Advance(q, t, call))
  {
    AdvanceSteps(q, t, call);
    ConsumerStays(q, t, call, me);
  }

  /** A step of another thread leaves the task of an Enqueue as it is. */
  lemma AbsEnqueueKept(q: TaskQueue, t: Tid, call: Q.Call, u: Tid, lane: P.Lane)
    requires t in q.tids && u in q.tids && u != t && Pc(q, u).Enqueuing?
    ensures AbsEnqueue(Advance(q, t, call), u, lane) == AbsEnqueue(q, u, lane)
  {
    OneMore(q, t, call);
    var c := Q.Exec(q.tids, q.sched);
    assert Q.PcInv(c.s.m, c.k, c.s.threads[t]) && Q.PcInv(c.s.m, c.k, c.s.threads[u]);
    ActSteps(c.s.m, c.k, c.s.threads[t], call);
    NodeAllocated(c.s.m, c.k, c.s.threads[u]);
  }

  /** The move of Poller's model that a step is, if it is one. */
  function MoveOf(w: World, move: P.Move): Option<P.Move> {
    var visible :=
      match move
      case CallerMoves(t, _, _) =>
        t in w.callers && (w.callers[t].Enqueuing? ==> EnqueueVisible(Of(w, w.callers[t].lane), t))
      case LoopMoves(_) =>
        match w.loop
        case Calling(lane, i) => lane == P.Low && i >= P.MAX_ASYNC_TASKS_AT_ONE_TIME
        case Dequeuing(lane, i) => DequeueVisible(Of(w, lane), w.me)
        case _ => true;
    if visible then Some(move) else None
  }

  /** The link CAS, and the count */
  predicate EnqueueVisible(q: TaskQueue, t: Tid) {
    Q.Links(Mem(q), Pc(q, t)) || (Pc(q, t).Enqueuing? && Pc(q, t).enq.Count?)
  }

  /** The unlink CAS, the discount, and the load of a nil */
  predicate DequeueVisible(q: TaskQueue, t: Tid) {
    var pc := Pc(q, t);
    || Q.Unlinks(Mem(q), pc) || (pc.Dequeuing? && pc.deq.Uncount?)
    || (pc.Dequeuing? && pc.deq.LoadNext? && Q.NextOf(Mem(q), pc.deq.head).None?)
  }

  function Apply(s: P.State, move: Option<P.Move>): P.State {
    match move
    case None => s
    case Some(m) => P.Step(s, m)
  }

  /** A step of a caller in a queue, seen from Poller's model */
  lemma EnqueueSim(q: TaskQueue, t: Tid, call: Q.Call, q': TaskQueue, lane: P.Lane)
    requires StepsTo(q, t, call, q') && Pc(q, t).Enqueuing?
    ensures var a, pc := AbsQueue(q), Pc(q, t);
            && (Q.Links(Mem(q), pc) ==>
                  && AbsEnqueue(q, t, lane) == P.Linking(lane, Q.ValueOf(Mem(q), pc.n))
                  && AbsQueue(q') == a.(items := a.items + [Q.ValueOf(Mem(q), pc.n)],
                                        posted := a.posted + [Q.ValueOf(Mem(q), pc.n)])
                  && Pc(q', t).Enqueuing? && AbsEnqueue(q', t, lane) == P.Counting(lane))
            && (pc.enq.Count? ==>
                  AbsEnqueue(q, t, lane) == P.Counting(lane)
                  && AbsQueue(q') == a.(length := a.length + 1) && Pc(q', t).Idle?)
            && (!EnqueueVisible(q, t) ==>
                  AbsQueue(q') == a && Pc(q', t).Enqueuing? && AbsEnqueue(q', t, lane) == AbsEnqueue(q, t, lane))
  {
  }

  lemma EnqueueBegins(q: TaskQueue, t: Tid, task: Task, q': TaskQueue, lane: P.Lane)
    requires StepsTo(q, t, Q.Enqueue(task), q') && Pc(q, t).Idle?
    ensures AbsQueue(q') == AbsQueue(q) && Pc(q', t).Enqueuing? && AbsEnqueue(q', t, lane) == P.Linking(lane, task)
  {
  }

  lemma DequeueBegins(q: TaskQueue, t: Tid, q': TaskQueue, lane: P.Lane, i: nat)
    requires StepsTo(q, t, Q.Dequeue, q') && Pc(q, t).Idle?
    ensures AbsQueue(q') == AbsQueue(q) && Pc(q', t).Dequeuing?
    ensures AbsDequeue(Pc(q', t), lane, i) == P.Loop.Dequeuing(lane, i)
  {
  }

  /** Where Polling is after a step in Dequeue, in Poller's model */
  function AfterDequeue(q: TaskQueue, t: Tid, q': TaskQueue, lane: P.Lane, i: nat): P.Loop {
    var pc := Pc(q, t);
    if pc.Dequeuing? && pc.deq.Uncount? then P.Running(lane, i, pc.deq.task)
    else if Q.ReturnsNil(Mem(q), pc) then P.AfterNil(lane)
    else AbsDequeue(Pc(q', t), lane, i)
  }

  /** The steps of Poller's model within a Dequeue */
  ghost predicate ModelDequeue(a: P.Queue, now: P.Loop, a': P.Queue, next: P.Loop, lane: P.Lane, i: nat) {
    || (now == P.Loop.Dequeuing(lane, i) && a.items != []
        && a' == a.(items := a.items[1..]) && next == P.Discounting(lane, i, a.items[0]))
    || (now == P.Loop.Dequeuing(lane, i) && a.items == [] && a' == a && next == P.AfterNil(lane))
    || (now.Discounting? && now.lane == lane && now.i == i && a' == a.(length := a.length - 1)
        && next == P.Running(lane, i, now.task))
  }

  /** A step of Polling in a queue */
  lemma DequeueSim(q: TaskQueue, t: Tid, q': TaskQueue, lane: P.Lane, i: nat)
    requires StepsTo(q, t, Q.Dequeue, q') && Pc(q, t).Dequeuing? && AtHead(Mem(q), Pc(q, t).deq)
    requires Pc(q, t).deq.LoadNext? && Q.NextOf(Mem(q), Pc(q, t).deq.head).None? ==> AbsQueue(q).items == []
    ensures var pc, next := Pc(q, t), AfterDequeue(q, t, q', lane, i);
            && (Pc(q', t).Dequeuing? <==> !pc.deq.Uncount? && !Q.ReturnsNil(Mem(q), pc))
            && if DequeueVisible(q, t)
               then ModelDequeue(AbsQueue(q), AbsDequeue(pc, lane, i), AbsQueue(q'), next, lane, i)
               else AbsQueue(q') == AbsQueue(q) && next == AbsDequeue(pc, lane, i)
  {
  }

  /** The consumer loads a nil only of an empty queue. */
  lemma NilAtEmpty(q: TaskQueue, me: Tid)
    requires me in q.tids && Pc(q, me).Dequeuing? && Pc(q, me).deq.LoadNext?
    requires AtHead(Mem(q), Pc(q, me).deq) && Q.NextOf(Mem(q), Pc(q, me).deq.head).None?
    ensures AbsQueue(q).items == []
  {
    var c := Q.Exec(q.tids, q.sched);
    Q.Reachable(q.tids, q.sched);
    QT.ThreadsAreTids(q.tids, q.sched);
    assert Q.PcInv(c.s.m, c.k, c.s.threads[me]);
    QT.EmptyAtLoad(c.s.m, c.k, Pc(q, me).deq.head, c.s.m, c.k);
  }

  /** Two worlds that stand for the same callers, but for t */
  lemma AbsCallers(w: World, w': World, t: Tid)
    requires t in w.callers && w'.callers.Keys == w.callers.Keys
    requires forall u :: u in w.callers && u != t ==> AbsCaller(w', u) == AbsCaller(w, u)
    ensures Abs(w').callers == Abs(w).callers[t := AbsCaller(w', t)]
  {
  }

  // ---------------------------------------------------------------------------------------------
  // Simulation

  /** Only the queue of lane has changed, by a step of t. */
  ghost predicate Moves(w: World, w': World, lane: P.Lane, t: Tid, call: Q.Call) {
    && w'.me == w.me && w'.callers.Keys == w.callers.Keys
    && (forall u :: u in w.callers && u != t ==> w'.callers[u] == w.callers[u])
    && Of(w', lane) == Advance(Of(w, lane), t, call)
    && (if lane == P.Urgent then w'.low == w.low else w'.urgent == w.urgent)
  }

  /** Such a step changes what the model shows of no other thread. */
  lemma OthersKept(w: World, w': World, lane: P.Lane, t: Tid, call: Q.Call, u: Tid)
    requires Inv(w) && Moves(w, w', lane, t, call) && t in w.callers.Keys + {w.me} && u in w.callers && u != t
    ensures AbsCaller(w', u) == AbsCaller(w, u)
  {
    if w.callers[u] == Enqueuing(lane) {
      assert LaneInv(w, lane);
      AbsEnqueueKept(Of(w, lane), t, call, u, lane);
    }
  }

  lemma SameLoop(w: World, w': World, lane: P.Lane)
    requires w'.loop == w.loop && w'.me == w.me && Pc(Of(w', lane), w.me) == Pc(Of(w, lane), w.me)
    requires if lane == P.Urgent then w'.low == w.low else w'.urgent == w.urgent
    ensures AbsLoop(w') == AbsLoop(w)
  {
  }

  lemma AbsAfterCaller(w: World, w': World, lane: P.Lane, t: Tid, call: Q.Call, queue: P.Queue, caller: P.Caller)
    requires Inv(w) && Moves(w, w', lane, t, call) && t in w.callers
    requires w'.loop == w.loop && w'.wakeupCall == w.wakeupCall && w'.efd == w.efd
    requires AbsQueue(Of(w', lane)) == queue && AbsCaller(w', t) == caller
    requires Pc(Of(w', lane), w.me) == Pc(Of(w, lane), w.me)
    ensures Abs(w') == P.With(Abs(w), lane, queue).(callers := Abs(w).callers[t := caller])
  {
    forall u | u in w.callers && u != t ensures AbsCaller(w', u) == AbsCaller(w, u) {
      OthersKept(w, w', lane, t, call, u);
    }
    AbsCallers(w, w', t);
    SameLoop(w, w', lane);
  }

  lemma OtherLane(w: World, w': World, lane: P.Lane)
    requires LaneInv(w, lane) && Of(w', lane) == Of(w, lane) && w'.me == w.me && w'.callers.Keys == w.callers.Keys
    requires forall u :: u in w.callers ==> (w'.callers[u] == Enqueuing(lane) <==> w.callers[u] == Enqueuing(lane))
    requires (w'.loop.Dequeuing? && w'.loop.lane == lane) <==> (w.loop.Dequeuing? && w.loop.lane == lane)
    ensures LaneInv(w', lane)
  {
  }

  lemma LaneAfterCaller(w: World, w': World, lane: P.Lane, t: Tid)
    requires Matches(w, lane) && w'.me == w.me && w'.loop == w.loop && w'.callers.Keys == w.callers.Keys
    requires t in w.callers && w.me !in w.callers
    requires forall u :: u in w.callers && u != t ==> w'.callers[u] == w.callers[u]
    requires forall u :: u != t ==> Pc(Of(w', lane), u) == Pc(Of(w, lane), u)
    requires Pc(Of(w', lane), t).Enqueuing? <==> w'.callers[t] == Enqueuing(lane)
    ensures Matches(w', lane)
  {
  }

  lemma InvAfterCaller(w: World, w': World, lane: P.Lane, t: Tid, call: Q.Call)
    requires Inv(w) && Moves(w, w', lane, t, call) && t in w.callers && w'.loop == w.loop
    requires Sound(Of(w', lane), w.callers.Keys, w.me)
    requires forall u :: u != t ==> Pc(Of(w', lane), u) == Pc(Of(w, lane), u)
    requires Pc(Of(w', lane), t).Enqueuing? <==> w'.callers[t] == Enqueuing(lane)
    requires forall l :: l != lane ==> w.callers[t] != Enqueuing(l) && w'.callers[t] != Enqueuing(l)
    ensures Inv(w')
  {
    forall l: P.Lane ensures LaneInv(w', l) {
      assert LaneInv(w, l);
      if l == lane {
        LaneAfterCaller(w, w', lane, t);
      } else {
        OtherLane(w, w', l);
      }
    }
  }

  /** The lane that t is not in holds nothing of it. */
  lemma OutsideIsIdle(w: World, lane: P.Lane, t: Tid)
    requires Inv(w) && t in w.callers && w.callers[t] != Enqueuing(lane)
    ensures Pc(Of(w, lane), t).Idle?
  {
    var q := Of(w, lane);
    assert LaneInv(w, lane);
    Q.Reachable(q.tids, q.sched);
    QT.ThreadsAreTids(q.tids, q.sched);
    assert Q.PcInv(Mem(q), Q.Exec(q.tids, q.sched).k, Pc(q, t));
  }

  /** The step keeps the invariant, and is a step of Poller's model or does not show there. */
  ghost predicate Simulated(w: World, move: P.Move) {
    && Inv(Step(w, move)) && InTurn(Step(w, move))
    && Abs(Step(w, move)) == Apply(Abs(w), MoveOf(w, move))
  }

  lemma BeginKeepsInv(w: World, t: Tid, lane: P.Lane, task: Task)
    requires Inv(w) && t in w.callers && w.callers[t].Idle?
    ensures Inv(CallerStep(w, t, lane, task))
  {
    var w', q := CallerStep(w, t, lane, task), Of(w, lane);
    assert LaneInv(w, lane);
    OutsideIsIdle(w, lane, t);
    AdvanceQueue(q, w.callers.Keys, w.me, t, Q.Enqueue(task));
    EnqueueBegins(q, t, task, Of(w', lane), lane);
    InvAfterCaller(w, w', lane, t, Q.Enqueue(task));
  }

  lemma BeginShows(w: World, t: Tid, lane: P.Lane, task: Task)
    requires Inv(w) && t in w.callers && w.callers[t].Idle?
    ensures Abs(CallerStep(w, t, lane, task)) == P.CallerStep(Abs(w), t, lane, task)
  {
    var w', q := CallerStep(w, t, lane, task), Of(w, lane);
    assert LaneInv(w, lane);
    OutsideIsIdle(w, lane, t);
    AdvanceSteps(q, t, Q.Enqueue(task));
    EnqueueBegins(q, t, task, Of(w', lane), lane);
    AbsAfterCaller(w, w', lane, t, Q.Enqueue(task), AbsQueue(q), P.Linking(lane, task));
  }

  lemma CallBegins(w: World, t: Tid, lane: P.Lane, task: Task)
    requires Inv(w) && InTurn(w) && t in w.callers && w.callers[t].Idle?
    ensures Simulated(w, P.CallerMoves(t, lane, task))
  {
    BeginKeepsInv(w, t, lane, task);
    BeginShows(w, t, lane, task);
  }

  /** The steps of Poller's model within an Enqueue */
  ghost predicate ModelEnqueue(a: P.Queue, now: P.Caller, a': P.Queue, next: P.Caller, lane: P.Lane) {
    || (now.Linking? && now.lane == lane && next == P.Counting(lane)
        && a' == a.(items := a.items + [now.task], posted := a.posted + [now.task]))
    || (now == P.Counting(lane) && next == P.Caller.Casing && a' == a.(length := a.length + 1))
  }

  lemma ModelCaller(s: P.State, t: Tid, l: P.Lane, a: P.Queue, next: P.Caller, lane: P.Lane, task: Task)
    requires t in s.callers && ModelEnqueue(P.Of(s, l), s.callers[t], a, next, l)
    ensures P.With(s, l, a).(callers := s.callers[t := next]) == P.CallerStep(s, t, lane, task)
  {
  }

  lemma Unmoved(s: P.State, t: Tid, l: P.Lane)
    requires t in s.callers
    ensures P.With(s, l, P.Of(s, l)).(callers := s.callers[t := s.callers[t]]) == s
  {
    assert s.callers[t := s.callers[t]] == s.callers;
  }

  lemma CallKeepsInv(w: World, t: Tid, lane: P.Lane, task: Task)
    requires Inv(w) && t in w.callers && w.callers[t].Enqueuing?
    ensures Inv(CallerStep(w, t, lane, task))
  {
    var l := w.callers[t].lane;
    var w', q := CallerStep(w, t, lane, task), Of(w, l);
    assert LaneInv(w, l);
    AdvanceQueue(q, w.callers.Keys, w.me, t, Q.Dequeue);
    EnqueueSim(q, t, Q.Dequeue, Of(w', l), l);
    InvAfterCaller(w, w', l, t, Q.Dequeue);
  }

  lemma CallSteps(w: World, t: Tid, lane: P.Lane, task: Task)
    requires Inv(w) && t in w.callers && w.callers[t].Enqueuing?
    ensures var l, w' := w.callers[t].lane, CallerStep(w, t, lane, task);
            var a, a', c, c' := AbsQueue(Of(w, l)), AbsQueue(Of(w', l)), AbsCaller(w, t), AbsCaller(w', t);
            if EnqueueVisible(Of(w, l), t) then ModelEnqueue(a, c, a', c', l) else a' == a && c' == c
    ensures var l, w' := w.callers[t].lane, CallerStep(w, t, lane, task);
            Pc(Of(w', l), w.me) == Pc(Of(w, l), w.me)
  {
    var l := w.callers[t].lane;
    var w', q := CallerStep(w, t, lane, task), Of(w, l);
    assert LaneInv(w, l);
    AdvanceSteps(q, t, Q.Dequeue);
    EnqueueSim(q, t, Q.Dequeue, Of(w', l), l);
  }

  lemma CallShows(w: World, t: Tid, lane: P.Lane, task: Task)
    requires Inv(w) && t in w.callers && w.callers[t].Enqueuing?
    ensures var w', move := CallerStep(w, t, lane, task), P.CallerMoves(t, lane, task);
            Abs(w') == Apply(Abs(w), MoveOf(w, move))
  {
    var l := w.callers[t].lane;
    var w' := CallerStep(w, t, lane, task);
    CallSteps(w, t, lane, task);
    AbsAfterCaller(w, w', l, t, Q.Dequeue, AbsQueue(Of(w', l)), AbsCaller(w', t));
    if EnqueueVisible(Of(w, l), t) {
      ModelCaller(Abs(w), t, l, AbsQueue(Of(w', l)), AbsCaller(w', t), lane, task);
    } else {
      Unmoved(Abs(w), t, l);
    }
  }

  /** t stays out of the queues. */
  lemma CallerOutside(w: World, w': World, t: Tid, c: Caller)
    requires Inv(w) && t in w.callers && !w.callers[t].Enqueuing? && !c.Enqueuing?
    requires w' == w.(wakeupCall := w'.wakeupCall, efd := w'.efd, callers := w.callers[t := c])
    ensures Inv(w')
    ensures Abs(w') == Abs(w).(wakeupCall := w'.wakeupCall, efd := w'.efd,
                               callers := Abs(w).callers[t := AbsCaller(w', t)])
  {
    AbsCallers(w, w', t);
    assert w'.callers.Keys == w.callers.Keys;
    forall l: P.Lane ensures LaneInv(w', l) { assert LaneInv(w, l); }
  }

  lemma CallElsewhere(w: World, t: Tid, lane: P.Lane, task: Task)
    requires Inv(w) && InTurn(w) && t in w.callers && (w.callers[t].Casing? || w.callers[t].Writing?)
    ensures Simulated(w, P.CallerMoves(t, lane, task))
  {
    var w' := CallerStep(w, t, lane, task);
    CallerOutside(w, w', t, w'.callers[t]);
  }

  lemma CallGoesOn(w: World, t: Tid, lane: P.Lane, task: Task)
    requires Inv(w) && InTurn(w) && t in w.callers && w.callers[t].Enqueuing?
    ensures Simulated(w, P.CallerMoves(t, lane, task))
  {
    CallKeepsInv(w, t, lane, task);
    CallShows(w, t, lane, task);
  }

  lemma CallerSim(w: World, t: Tid, lane: P.Lane, task: Task)
    requires Inv(w) && InTurn(w)
    ensures Simulated(w, P.CallerMoves(t, lane, task))
  {
    if t in w.callers {
      match w.callers[t]
      case Idle => CallBegins(w, t, lane, task);
      case Enqueuing(_) => CallGoesOn(w, t, lane, task);
      case _ => CallElsewhere(w, t, lane, task);
    }
  }

  lemma SameCallers(w: World, w': World)
    requires w'.callers.Keys == w.callers.Keys
    requires forall u :: u in w.callers ==> AbsCaller(w', u) == AbsCaller(w, u)
    ensures Abs(w').callers == Abs(w).callers
  {
  }

  lemma AbsAfterLoop(w: World, w': World, lane: P.Lane, queue: P.Queue)
    requires Inv(w) && Moves(w, w', lane, w.me, Q.Dequeue) && w'.wakeupCall == w.wakeupCall && w'.efd == w.efd
    requires AbsQueue(Of(w', lane)) == queue
    ensures Abs(w') == P.With(Abs(w), lane, queue).(loop := AbsLoop(w'))
  {
    forall u | u in w.callers ensures AbsCaller(w', u) == AbsCaller(w, u) {
      OthersKept(w, w', lane, w.me, Q.Dequeue, u);
    }
    SameCallers(w, w');
  }

  lemma InvAfterLoop(w: World, w': World, lane: P.Lane)
    requires Inv(w) && Moves(w, w', lane, w.me, Q.Dequeue) && Sound(Of(w', lane), w.callers.Keys, w.me)
    requires forall u :: u != w.me ==> Pc(Of(w', lane), u) == Pc(Of(w, lane), u)
    requires Pc(Of(w', lane), w.me).Dequeuing? <==> w'.loop.Dequeuing? && w'.loop.lane == lane
    requires w.loop.Dequeuing? ==> w.loop.lane == lane
    requires w'.loop.Dequeuing? ==> w'.loop.lane == lane
    ensures Inv(w')
  {
    forall l: P.Lane ensures LaneInv(w', l) {
      assert LaneInv(w, l);
      if l != lane { OtherLane(w, w', l); }
    }
  }

  /** A Dequeue begins, which Poller's model does not show. */
  lemma DequeueStarts(w: World, choice: P.Choice)
    requires Inv(w) && w.loop.Calling? && !(w.loop.lane == P.Low && w.loop.i >= P.MAX_ASYNC_TASKS_AT_ONE_TIME)
    ensures Simulated(w, P.LoopMoves(choice))
  {
    var lane := w.loop.lane;
    var w', q := LoopStep(w, choice), Of(w, lane);
    assert LaneInv(w, lane);
    AdvanceQueue(q, w.callers.Keys, w.me, w.me, Q.Dequeue);
    MeIsIdle(w, lane);
    DequeueBegins(q, w.me, Of(w', lane), lane, w.loop.i);
    InvAfterLoop(w, w', lane);
    AbsAfterLoop(w, w', lane, AbsQueue(q));
  }

  lemma MeIsIdle(w: World, lane: P.Lane)
    requires Inv(w) && !(w.loop.Dequeuing? && w.loop.lane == lane)
    ensures Pc(Of(w, lane), w.me).Idle?
  {
    var q := Of(w, lane);
    assert LaneInv(w, lane);
    Q.Reachable(q.tids, q.sched);
    QT.ThreadsAreTids(q.tids, q.sched);
    assert Q.PcInv(Mem(q), Q.Exec(q.tids, q.sched).k, Pc(q, w.me));
  }

  lemma ModelLoop(s: P.State, lane: P.Lane, i: nat, a: P.Queue, next: P.Loop, choice: P.Choice)
    requires lane == P.Low ==> i < P.MAX_ASYNC_TASKS_AT_ONE_TIME
    requires s.loop.Discounting? || s.loop.Dequeuing?
    requires ModelDequeue(P.Of(s, lane), s.loop, a, next, lane, i)
    ensures P.With(s, lane, a).(loop := next) == P.LoopStep(s, choice)
  {
  }

  /** What Polling finds at the load of head.next */
  lemma LoadSim(w: World)
    requires Inv(w) && w.loop.Dequeuing?
    ensures var q := Of(w, w.loop.lane);
            Pc(q, w.me).Dequeuing? && AtHead(Mem(q), Pc(q, w.me).deq) && w.me in q.tids
            && (Pc(q, w.me).deq.LoadNext? && Q.NextOf(Mem(q), Pc(q, w.me).deq.head).None? ==> AbsQueue(q).items == [])
  {
    var q := Of(w, w.loop.lane);
    assert LaneInv(w, w.loop.lane);
    if Pc(q, w.me).deq.LoadNext? && Q.NextOf(Mem(q), Pc(q, w.me).deq.head).None? { NilAtEmpty(q, w.me); }
  }

  lemma DequeueKeepsInv(w: World, choice: P.Choice)
    requires Inv(w) && w.loop.Dequeuing?
    ensures Inv(LoopStep(w, choice))
  {
    var lane := w.loop.lane;
    var w', q := LoopStep(w, choice), Of(w, lane);
    assert LaneInv(w, lane);
    LoadSim(w);
    AdvanceQueue(q, w.callers.Keys, w.me, w.me, Q.Dequeue);
    DequeueSim(q, w.me, Of(w', lane), lane, w.loop.i);
    InvAfterLoop(w, w', lane);
  }

  lemma DequeueSteps(w: World, choice: P.Choice)
    requires Inv(w) && w.loop.Dequeuing?
    ensures var w', lane := LoopStep(w, choice), w.loop.lane;
            var a, a' := AbsQueue(Of(w, lane)), AbsQueue(Of(w', lane));
            if DequeueVisible(Of(w, lane), w.me) then ModelDequeue(a, AbsLoop(w), a', AbsLoop(w'), lane, w.loop.i)
            else a' == a && AbsLoop(w') == AbsLoop(w)
  {
    var lane := w.loop.lane;
    var w', q := LoopStep(w, choice), Of(w, lane);
    LoadSim(w);
    AdvanceSteps(q, w.me, Q.Dequeue);
    DequeueSim(q, w.me, Of(w', lane), lane, w.loop.i);
  }

  lemma DequeueShows(w: World, choice: P.Choice)
    requires Inv(w) && InTurn(w) && w.loop.Dequeuing?
    ensures Abs(LoopStep(w, choice)) == Apply(Abs(w), MoveOf(w, P.LoopMoves(choice)))
  {
    var lane, i := w.loop.lane, w.loop.i;
    var w' := LoopStep(w, choice);
    DequeueSteps(w, choice);
    AbsAfterLoop(w, w', lane, AbsQueue(Of(w', lane)));
    if DequeueVisible(Of(w, lane), w.me) {
      ModelLoop(Abs(w), lane, i, AbsQueue(Of(w', lane)), AbsLoop(w'), choice);
    }
  }

  lemma DequeueGoesOn(w: World, choice: P.Choice)
    requires Inv(w) && InTurn(w) && w.loop.Dequeuing?
    ensures Simulated(w, P.LoopMoves(choice))
  {
    DequeueKeepsInv(w, choice);
    DequeueShows(w, choice);
  }

  /** IsEmpty reads what Poller's model reads. */
  lemma TestAgrees(q: TaskQueue)
    ensures QT.IsEmpty(Mem(q)) <==> P.IsEmpty(AbsQueue(q))
  {
    QT.LengthIsAccounted(q.tids, q.sched);
  }

  lemma LoopOutside(w: World, w': World)
    requires Inv(w) && !w.loop.Dequeuing? && !w'.loop.Dequeuing?
    requires w' == w.(wakeupCall := w'.wakeupCall, efd := w'.efd, loop := w'.loop)
    ensures Inv(w')
    ensures Abs(w') == Abs(w).(wakeupCall := w'.wakeupCall, efd := w'.efd, loop := AbsLoop(w'))
  {
    assert Abs(w').callers == Abs(w).callers;
    forall l: P.Lane ensures LaneInv(w', l) { assert LaneInv(w, l); }
  }

  lemma TaskRuns(w: World, choice: P.Choice)
    requires Inv(w) && w.loop.Running?
    ensures Simulated(w, P.LoopMoves(choice))
  {
    var w' := LoopStep(w, choice);
    RanIsHistory(w, w', w.loop.lane, w.loop.task);
  }

  lemma RanIsHistory(w: World, w': World, lane: P.Lane, task: Task)
    requires Inv(w) && !w.loop.Dequeuing? && !w'.loop.Dequeuing?
    requires var q := Of(w, lane); w' == With(w, lane, q.(ran := q.ran + [task])).(loop := w'.loop)
    ensures Inv(w')
    ensures var q := P.Of(Abs(w), lane);
            Abs(w') == P.With(Abs(w), lane, q.(ran := q.ran + [task])).(loop := AbsLoop(w'))
  {
    assert Abs(w').callers == Abs(w).callers;
    forall l: P.Lane ensures LaneInv(w', l) { assert LaneInv(w, l); }
  }

  /** Outside the queues Polling does what Poller's model does. */
  lemma ModelElsewhere(s: P.State, w: World, choice: P.Choice)
    requires s.wakeupCall == w.wakeupCall && s.efd == w.efd && s.loop == AbsLoop(w)
    requires !w.loop.Dequeuing? && !w.loop.Running?
    requires w.loop.Calling? ==> w.loop.lane == P.Low && w.loop.i >= P.MAX_ASYNC_TASKS_AT_ONE_TIME
    requires w.loop.Testing? ==> (QT.IsEmpty(Mem(Of(w, w.loop.lane))) <==> P.IsEmpty(P.Of(s, w.loop.lane)))
    ensures var w' := LoopStep(w, choice);
            && P.LoopStep(s, choice) == s.(wakeupCall := w'.wakeupCall, efd := w'.efd, loop := AbsLoop(w'))
            && w' == w.(wakeupCall := w'.wakeupCall, efd := w'.efd, loop := w'.loop) && !w'.loop.Dequeuing?
  {
  }

  lemma LoopElsewhere(w: World, choice: P.Choice)
    requires Inv(w) && !w.loop.Dequeuing? && !w.loop.Running?
    requires w.loop.Calling? ==> w.loop.lane == P.Low && w.loop.i >= P.MAX_ASYNC_TASKS_AT_ONE_TIME
    ensures Simulated(w, P.LoopMoves(choice))
  {
    if w.loop.Testing? { TestAgrees(Of(w, w.loop.lane)); }
    ModelElsewhere(Abs(w), w, choice);
    LoopOutside(w, LoopStep(w, choice));
  }

  lemma LoopSim(w: World, choice: P.Choice)
    requires Inv(w) && InTurn(w)
    ensures Simulated(w, P.LoopMoves(choice))
  {
    if w.loop.Calling? && !(w.loop.lane == P.Low && w.loop.i >= P.MAX_ASYNC_TASKS_AT_ONE_TIME) {
      DequeueStarts(w, choice);
    } else if w.loop.Dequeuing? {
      DequeueGoesOn(w, choice);
    } else if w.loop.Running? {
      TaskRuns(w, choice);
    } else {
      LoopElsewhere(w, choice);
    }
  }

  lemma StepSim(w: World, move: P.Move)
    requires Inv(w) && InTurn(w)
    ensures Simulated(w, move)
  {
    match move
    case CallerMoves(t, lane, task) => CallerSim(w, t, lane, task);
    case LoopMoves(choice) => LoopSim(w, choice);
  }

  // ---------------------------------------------------------------------------------------------
  // Results

  /** The step is a test of IsEmpty that reads 0 of a length that has wrapped around to it. */
  ghost predicate Misreads(w: World, move: P.Move) {
    && move.LoopMoves? && w.loop.Testing?
    && var q := Of(w, w.loop.lane);
       QT.IsEmpty(Mem(q)) && QT.TrueLength(QT.After(q.tids, q.sched)) != 0
  }

  /** No test of the run misreads. */
  ghost predicate NeverMisreads(tids: set<Tid>, me: Tid, moves: seq<P.Move>) {
    forall i :: 0 <= i < |moves| ==> !Misreads(Exec(tids, me, moves[..i]), moves[i])
  }

  lemma NeverBefore(tids: set<Tid>, me: Tid, moves: seq<P.Move>, n: nat)
    requires n <= |moves| && NeverMisreads(tids, me, moves)
    ensures NeverMisreads(tids, me, moves[..n])
  {
    assert forall i :: 0 <= i < n ==> moves[..n][..i] == moves[..i];
  }

  lemma {:induction false} NeverSnoc(tids: set<Tid>, model: seq<P.Move>, move: P.Move)
    requires P.NeverMisreads(tids, model) && !P.Misreads(P.Exec(tids, model), move)
    ensures P.NeverMisreads(tids, model + [move])
  {
    var more := model + [move];
    assert more[..|model|] == model;
    assert forall i :: 0 <= i < |model| ==> more[..i] == model[..i];
  }

  /** The moves of Poller's model that a run makes. */
  function Model(tids: set<Tid>, me: Tid, moves: seq<P.Move>): seq<P.Move> {
    if moves == [] then []
    else
      var n := |moves| - 1;
      match MoveOf(Exec(tids, me, moves[..n]), moves[n])
      case None => Model(tids, me, moves[..n])
      case Some(move) => Model(tids, me, moves[..n]) + [move]
  }

  /** Every run over the real queues is, seen from outside them, a run of Poller's model. */
  lemma {:induction false} Simulates(tids: set<Tid>, me: Tid, moves: seq<P.Move>)
    requires me !in tids
    ensures Inv(Exec(tids, me, moves)) && InTurn(Exec(tids, me, moves))
    ensures Abs(Exec(tids, me, moves)) == P.Exec(tids, Model(tids, me, moves))
    decreases |moves|
  {
    if moves == [] {
      InitSim(tids, me);
    } else {
      var n := |moves| - 1;
      Simulates(tids, me, moves[..n]);
      StepSim(Exec(tids, me, moves[..n]), moves[n]);
      ModelSnoc(tids, Model(tids, me, moves[..n]), moves[n]);
    }
  }

  lemma MisreadsAgree(w: World, move: P.Move)
    ensures Misreads(w, move) <==> P.Misreads(Abs(w), move)
  {
    if w.loop.Testing? { TestAgrees(Of(w, w.loop.lane)); }
  }

  /** A run that misreads nothing does not misread there. */
  lemma {:induction false} NeverThere(tids: set<Tid>, me: Tid, moves: seq<P.Move>)
    requires me !in tids && NeverMisreads(tids, me, moves)
    ensures P.NeverMisreads(tids, Model(tids, me, moves))
    decreases |moves|
  {
    if moves == [] {
    } else {
      var n := |moves| - 1;
      NeverBefore(tids, me, moves, n);
      NeverThere(tids, me, moves[..n]);
      Simulates(tids, me, moves[..n]);
      MisreadsAgree(Exec(tids, me, moves[..n]), moves[n]);
      if MoveOf(Exec(tids, me, moves[..n]), moves[n]).Some? {
        NeverSnoc(tids, Model(tids, me, moves[..n]), moves[n]);
      }
    }
  }

  lemma ModelSnoc(tids: set<Tid>, model: seq<P.Move>, move: P.Move)
    ensures P.Exec(tids, model + [move]) == P.Step(P.Exec(tids, model), move)
  {
    assert (model + [move])[..|model|] == model;
  }

  lemma InitSim(tids: set<Tid>, me: Tid)
    requires me !in tids
    ensures Inv(Init(tids, me)) && Abs(Init(tids, me)) == P.Init(tids)
  {
    var w := Init(tids, me);
    var s := Q.Init(tids + {me});
    assert Abs(w).callers == P.Init(tids).callers;
    assert QT.Uncounted(s.threads) == {} && QT.Undiscounted(s.threads) == {};
  }

  predicate Asleep(w: World) {
    w.loop.Waiting? && w.efd == 0
  }

  predicate Quiet(w: World) {
    forall t :: t in w.callers ==> w.callers[t].Idle?
  }

  /** Each test is of a list of fewer than 2^32 tasks, and there are as few callers: then none misreads. */
  lemma {:induction false} ShortListsAreRead(tids: set<Tid>, me: Tid, moves: seq<P.Move>)
    requires me !in tids && |tids| < 0x1_0000_0000
    requires forall i :: 0 <= i < |moves| ==>
               var w := Exec(tids, me, moves[..i]);
               w.loop.Testing? ==> |Q.Contents(Mem(Of(w, w.loop.lane)))| < 0x1_0000_0000
    ensures NeverMisreads(tids, me, moves)
  {
    forall i | 0 <= i < |moves| ensures !Misreads(Exec(tids, me, moves[..i]), moves[i]) {
      var w := Exec(tids, me, moves[..i]);
      Simulates(tids, me, moves[..i]);
      P.Reachable(tids, Model(tids, me, moves[..i]));
      P.CallersAreTids(tids, Model(tids, me, moves[..i]));
      if w.loop.Testing? && moves[i].LoopMoves? {
        P.ShortIsRead(Abs(w), w.loop.lane);
        MisreadsAgree(w, moves[i]);
      }
    }
  }

  /** t has linked its task, and has yet to try the CAS or to write the signal it owes. */
  predicate Owes(w: World, t: Tid)
    requires t in w.callers
  {
    match w.callers[t]
    case Idle => false
    case Enqueuing(lane) => Q.FreshOf(Pc(Of(w, lane), t)).None?
    case _ => true
  }

  lemma SleepShown(w: World)
    requires var s := Abs(w);
             P.Asleep(s) && (s.urgent.items != [] || s.low.items != []) ==>
               exists t :: t in s.callers && (s.callers[t].Counting? || s.callers[t].Casing? || s.callers[t].Writing?)
    ensures Asleep(w) && (Q.Contents(Mem(w.urgent)) != [] || Q.Contents(Mem(w.low)) != []) ==>
              exists t :: t in w.callers && Owes(w, t)
  {
    var s := Abs(w);
    if Asleep(w) && (Q.Contents(Mem(w.urgent)) != [] || Q.Contents(Mem(w.low)) != []) {
      assert P.Asleep(s);
      var t :| t in s.callers && (s.callers[t].Counting? || s.callers[t].Casing? || s.callers[t].Writing?);
      assert t in w.callers && Owes(w, t);
    }
  }

  /** No lost wake-up, over the real queues: in every interleaving of the atomic accesses of any number of
      Triggers with those of Polling, unless a test has misread a length that wrapped around, whenever
      Polling sleeps with no signal pending while a list holds a task, some Trigger owes a signal. So when
      no Trigger is in flight, both lists are empty. */
  lemma {:induction false} NoLostWakeUp(tids: set<Tid>, me: Tid, moves: seq<P.Move>)
    requires me !in tids && NeverMisreads(tids, me, moves)
    ensures var w := Exec(tids, me, moves);
            Asleep(w) && (Q.Contents(Mem(w.urgent)) != [] || Q.Contents(Mem(w.low)) != []) ==>
              exists t :: t in w.callers && Owes(w, t)
    ensures var w := Exec(tids, me, moves);
            Asleep(w) && Quiet(w) ==> Q.Contents(Mem(w.urgent)) == [] && Q.Contents(Mem(w.low)) == []
  {
    Simulates(tids, me, moves);
    NeverThere(tids, me, moves);
    P.NoLostWakeUp(tids, Model(tids, me, moves));
    SleepShown(Exec(tids, me, moves));
  }

  /** The Triggers about to write a signal */
  ghost function Writers(w: World): set<Tid> {
    set t | t in w.callers && w.callers[t].Writing?
  }

  lemma SameWriters(w: World)
    ensures Writers(w) == P.Writers(Abs(w).callers)
    ensures Abs(w).efd == w.efd && Abs(w).wakeupCall == w.wakeupCall
  {
    assert forall t :: t in w.callers ==> (w.callers[t].Writing? <==> AbsCaller(w, t).Writing?);
  }

  /** At most one signal is pending or about to be written by a Trigger, and wakeupCall is 0 or 1. */
  lemma OneTokenAtMost(tids: set<Tid>, me: Tid, moves: seq<P.Move>)
    requires me !in tids
    ensures var w := Exec(tids, me, moves); w.efd + |Writers(w)| <= w.wakeupCall <= 1
  {
    Simulates(tids, me, moves);
    P.OneTokenAtMost(tids, Model(tids, me, moves));
    SameWriters(Exec(tids, me, moves));
  }

  /** What has run of a list is, in order, what was posted to it first; and whenever Polling waits or has
      stopped, all else that was posted is what the list holds. */
  lemma TasksRunInOrder(tids: set<Tid>, me: Tid, moves: seq<P.Move>, lane: P.Lane)
    requires me !in tids
    ensures InOrder(Exec(tids, me, moves), lane)
  {
    Simulates(tids, me, moves);
    P.TasksRunInOrder(tids, Model(tids, me, moves), lane);
    Ordered(Exec(tids, me, moves), lane);
  }

  ghost predicate InOrder(w: World, lane: P.Lane) {
    var q := Of(w, lane);
    && q.ran <= q.posted
    && (w.loop.Waiting? || w.loop.Stopped? ==> q.posted == q.ran + Q.Contents(Mem(q)))
  }

  lemma Ordered(w: World, lane: P.Lane)
    requires var s := Abs(w);
             && P.Of(s, lane).ran <= P.Of(s, lane).posted
             && (s.loop.Waiting? || s.loop.Stopped? ==> P.Of(s, lane).posted == P.Of(s, lane).ran + P.Of(s, lane).items)
    ensures InOrder(w, lane)
  {
  }
}
