/** internal/netpoll/epoll_optimized_poller.go: the wake-up handshake between Trigger/UrgentTrigger
    on any goroutine and the chores part of Polling.

    Each task queue is seen at a granularity that module PollerQueues justifies: Enqueue links its
    task and, later, counts it in length; Dequeue unlinks the front and, later, discounts it;
    Dequeue of an empty queue returns nil. IsEmpty reads length only, of which 32 bits are kept.
 */
module Poller {
  import opened Bytes
  import opened Cardinality
  import LockFreeQueue

  type Task = nat
  type Tid = nat

  datatype Lane = Urgent | Low

  const MAX_ASYNC_TASKS_AT_ONE_TIME := 256
  const EFD_MAX := 0xffff_ffff_ffff_fffe // the greatest value an eventfd counter holds

  /** length is what has been added to and taken from the counter, not wrapped around. posted and ran
      are history: every task linked, and every task run, in order. */
  datatype Queue = Queue(items: seq<Task>, length: int, posted: seq<Task>, ran: seq<Task>)

  /** A Trigger or UrgentTrigger call, at the step it is about to take. */
  datatype Caller =
    | Idle
    | Linking(lane: Lane, task: Task) // 94, 110: Enqueue's link
    | Counting(lane: Lane)            // 94, 110: Enqueue's count
    | Casing                          // 95, 111
    | Writing                         // 96, 112

  /** Polling, at the step it is about to take. doChores is true from Reading to Storing only. */
  datatype Loop =
    | Waiting(msec: int)                               // 126
    | Reading                                          // 150
    | Dequeuing(lane: Lane, i: nat)                    // 156, 157, 168
    | Discounting(lane: Lane, i: nat, task: Task)      // ... in Dequeue
    | Running(lane: Lane, i: nat, task: Task)          // 158, 171
    | Storing                                          // 180
    | Testing(lane: Lane)                              // 181: IsEmpty of one queue
    | Casing                                           // 181
    | Writing                                          // 182
    | Stopped                                          // 142, 161, 174

  datatype State = State(urgent: Queue, low: Queue, wakeupCall: int, efd: nat,
                         callers: map<Tid, Caller>, loop: Loop)

  /** What the kernel and the callbacks decide: epoll_wait reports nothing (or EINTR), other
      descriptors only, or the eventfd among others; a callback or a task shuts the engine down. */
  datatype Choice = Nothing | Others | Wakes | Shutdown

  datatype Move =
    | CallerMoves(t: Tid, lane: Lane, task: Task) // lane and task are what an idle caller posts
    | LoopMoves(choice: Choice)

  function Of(s: State, lane: Lane): Queue {
    if lane == Urgent then s.urgent else s.low
  }

  /** IsEmpty */
  predicate IsEmpty(q: Queue) {
    LockFreeQueue.Int32(q.length) == 0
  }

  function With(s: State, lane: Lane, q: Queue): State {
    if lane == Urgent then s.(urgent := q) else s.(low := q)
  }

  /** An 8-byte write of 1 to the eventfd; EAGAIN, which the callers ignore, leaves it as it is. */
  function Signal(efd: nat): nat {
    if efd >= EFD_MAX then efd else efd + 1
  }

  function CallerStep(s: State, t: Tid, lane: Lane, task: Task): State {
    if t !in s.callers then s
    else
      match s.callers[t]
      case Idle => s.(callers := s.callers[t := Linking(lane, task)])
      case Linking(l, v) =>
        var q := Of(s, l);
        With(s, l, q.(items := q.items + [v], posted := q.posted + [v])).(callers := s.callers[t := Counting(l)])
      case Counting(l) =>
        var q := Of(s, l);
        With(s, l, q.(length := q.length + 1)).(callers := s.callers[t := Caller.Casing])
      case Casing =>
        if s.wakeupCall == 0 then s.(wakeupCall := 1, callers := s.callers[t := Caller.Writing])
        else s.(callers := s.callers[t := Idle])
      case Writing => s.(efd := Signal(s.efd), callers := s.callers[t := Idle])
  }

  /** Where Polling goes when Dequeue has returned nil. */
  function AfterNil(lane: Lane): Loop {
    if lane == Urgent then Dequeuing(Low, 0) else Storing
  }

  function LoopStep(s: State, choice: Choice): State {
    match s.loop
    case Waiting(_) =>
      (match choice
       case Nothing => s.(loop := Waiting(-1))
       case Others => s.(loop := Waiting(0))
       case Wakes => if s.efd > 0 then s.(loop := Reading) else s // not reported unless readable
       case Shutdown => s.(loop := Stopped))
    case Reading => s.(efd := 0, loop := Dequeuing(Urgent, 0))
    case Dequeuing(lane, i) =>
      var q := Of(s, lane);
      if lane == Low && i >= MAX_ASYNC_TASKS_AT_ONE_TIME then s.(loop := Storing)
      else if q.items == [] then s.(loop := AfterNil(lane))
      else With(s, lane, q.(items := q.items[1..])).(loop := Discounting(lane, i, q.items[0]))
    case Discounting(lane, i, task) =>
      var q := Of(s, lane);
      With(s, lane, q.(length := q.length - 1)).(loop := Running(lane, i, task))
    case Running(lane, i, task) =>
      var q := Of(s, lane);
      With(s, lane, q.(ran := q.ran + [task])).(
        loop := if choice == Shutdown then Stopped else Dequeuing(lane, i + 1))
    case Storing => s.(wakeupCall := 0, loop := Testing(Low))
    case Testing(lane) =>
      s.(loop := if !IsEmpty(Of(s, lane)) then Loop.Casing
                 else if lane == Low then Testing(Urgent)
                 else Waiting(0))
    case Casing =>
      if s.wakeupCall == 0 then s.(wakeupCall := 1, loop := Loop.Writing) else s.(loop := Waiting(0))
    case Writing => s.(efd := Signal(s.efd), loop := Waiting(0))
    case Stopped => s
  }

  function Step(s: State, move: Move): State {
    match move
    case CallerMoves(t, lane, task) => CallerStep(s, t, lane, task)
    case LoopMoves(choice) => LoopStep(s, choice)
  }

  /** OpenPoller, then Polling, with every goroutine of tids outside Trigger. */
  function Init(tids: set<Tid>): State {
    State(Queue([], 0, [], []), Queue([], 0, [], []), 0, 0, map t | t in tids :: Idle, Waiting(-1))
  }

  function Exec(tids: set<Tid>, moves: seq<Move>): State {
    if moves == [] then Init(tids) else Step(Exec(tids, moves[..|moves| - 1]), moves[|moves| - 1])
  }

  // ---------------------------------------------------------------------------------------------
  // Invariants

  ghost function Writers(callers: map<Tid, Caller>): set<Tid> {
    set t | t in callers && callers[t].Writing?
  }

  ghost function Uncounted(callers: map<Tid, Caller>, lane: Lane): set<Tid> {
    set t | t in callers && callers[t] == Counting(lane)
  }

  /** Between the read of the eventfd and the store of 0. */
  predicate Draining(loop: Loop) {
    loop.Dequeuing? || loop.Discounting? || loop.Running? || loop.Storing?
  }

  /** The places where the one wake-up token can be. */
  ghost function Tokens(s: State): int {
    s.efd + |Writers(s.callers)| + One(Draining(s.loop)) + One(s.loop.Writing?)
  }

  ghost predicate TokenInv(s: State) {
    && (if s.loop.Stopped? then Tokens(s) <= s.wakeupCall else Tokens(s) == s.wakeupCall)
    && 0 <= s.wakeupCall <= 1
    && (s.loop.Reading? ==> s.efd > 0)
  }

  ghost predicate LengthInv(s: State, lane: Lane) {
    Of(s, lane).length ==
    |Of(s, lane).items| - |Uncounted(s.callers, lane)| + One(s.loop.Discounting? && s.loop.lane == lane)
  }

  /** A call that has linked its task and has yet to try the CAS. */
  ghost predicate WillSignal(callers: map<Tid, Caller>) {
    exists t :: t in callers && (callers[t].Counting? || callers[t].Casing?)
  }

  /** A queue with tasks has someone who will see to it. */
  ghost predicate Noticed(s: State, lane: Lane) {
    Of(s, lane).items != [] ==>
      || s.wakeupCall == 1
      || WillSignal(s.callers)
      || s.loop.Casing?
      || s.loop == Testing(lane) || s.loop == Testing(Low)
  }

  ghost predicate FifoInv(s: State, lane: Lane) {
    var q := Of(s, lane);
    q.posted == q.ran + (if (s.loop.Discounting? || s.loop.Running?) && s.loop.lane == lane then [s.loop.task] else [])
                + q.items
  }

  ghost predicate Inv(s: State) {
    TokenInv(s) && forall lane :: LengthInv(s, lane) && FifoInv(s, lane)
  }

  ghost predicate Watched(s: State) {
    s.loop.Stopped? || forall lane :: Noticed(s, lane)
  }

  /** The step is a test of IsEmpty that reads 0 of a length that has wrapped around to it. */
  predicate Misreads(s: State, move: Move) {
    move.LoopMoves? && s.loop.Testing? && IsEmpty(Of(s, s.loop.lane)) && Of(s, s.loop.lane).length != 0
  }

  lemma WritersStep(callers: map<Tid, Caller>, t: Tid, c: Caller)
    requires t in callers
    ensures |Writers(callers[t := c])| == |Writers(callers)| - One(callers[t].Writing?) + One(c.Writing?)
  {
    CardinalityStep(Writers(callers), Writers(callers[t := c]), t);
  }

  lemma UncountedStep(callers: map<Tid, Caller>, t: Tid, c: Caller, lane: Lane)
    requires t in callers
    ensures |Uncounted(callers[t := c], lane)| ==
            |Uncounted(callers, lane)| - One(callers[t] == Counting(lane)) + One(c == Counting(lane))
  {
    CardinalityStep(Uncounted(callers, lane), Uncounted(callers[t := c], lane), t);
  }

  /** An uncounted link is a call that will still try the CAS. */
  lemma UncountedWillSignal(callers: map<Tid, Caller>, lane: Lane)
    requires |Uncounted(callers, lane)| > 0
    ensures WillSignal(callers)
  {
    var t :| t in Uncounted(callers, lane);
  }

  lemma CallerTokens(s: State, t: Tid, lane: Lane, task: Task)
    requires TokenInv(s) && t in s.callers
    ensures TokenInv(CallerStep(s, t, lane, task))
  {
    WritersStep(s.callers, t, CallerStep(s, t, lane, task).callers[t]);
  }

  lemma CallerLength(s: State, t: Tid, l: Lane, task: Task, lane: Lane)
    requires LengthInv(s, lane) && t in s.callers
    ensures LengthInv(CallerStep(s, t, l, task), lane)
  {
    UncountedStep(s.callers, t, CallerStep(s, t, l, task).callers[t], lane);
  }

  lemma CallerFifo(s: State, t: Tid, l: Lane, task: Task, lane: Lane)
    requires FifoInv(s, lane)
    ensures FifoInv(CallerStep(s, t, l, task), lane)
  {
  }

  lemma CallerNoticed(s: State, t: Tid, l: Lane, task: Task, lane: Lane)
    requires Noticed(s, lane) && t in s.callers && 0 <= s.wakeupCall <= 1
    ensures Noticed(CallerStep(s, t, l, task), lane)
  {
    var s' := CallerStep(s, t, l, task);
    assert s.callers[t].Linking? || s.callers[t].Counting? ==> WillSignal(s'.callers) by {
      assert t in s'.callers;
    }
    if WillSignal(s.callers) {
      var u :| u in s.callers && (s.callers[u].Counting? || s.callers[u].Casing?);
      assert u != t ==> s'.callers[u] == s.callers[u];
    }
  }

  lemma LoopTokens(s: State, choice: Choice)
    requires TokenInv(s)
    ensures TokenInv(LoopStep(s, choice))
  {
  }

  lemma LoopLength(s: State, choice: Choice, lane: Lane)
    requires LengthInv(s, lane)
    ensures LengthInv(LoopStep(s, choice), lane)
  {
    assert LoopStep(s, choice).callers == s.callers;
  }

  lemma LoopFifo(s: State, choice: Choice, lane: Lane)
    requires FifoInv(s, lane)
    ensures FifoInv(LoopStep(s, choice), lane)
  {
    var q := Of(s, lane);
    if s.loop.Dequeuing? && s.loop.lane == lane && q.items != [] {
      assert q.items == [q.items[0]] + q.items[1..];
    }
  }

  /** When IsEmpty reads true of a queue with tasks, the Enqueue still to count will also signal. */
  lemma LoopNoticed(s: State, choice: Choice, lane: Lane)
    requires Noticed(s, lane) && TokenInv(s) && LengthInv(s, lane) && !Misreads(s, LoopMoves(choice))
    ensures var s' := LoopStep(s, choice); s'.loop.Stopped? || Noticed(s', lane)
  {
    if |Uncounted(s.callers, lane)| > 0 { UncountedWillSignal(s.callers, lane); }
  }

  lemma InvStep(s: State, move: Move)
    requires Inv(s)
    ensures Inv(Step(s, move))
  {
    var s' := Step(s, move);
    match move {
      case CallerMoves(t, l, task) =>
        if t in s.callers {
          CallerTokens(s, t, l, task);
          forall lane ensures LengthInv(s', lane) && FifoInv(s', lane) {
            CallerLength(s, t, l, task, lane);
            CallerFifo(s, t, l, task, lane);
          }
        }
      case LoopMoves(choice) =>
        LoopTokens(s, choice);
        forall lane ensures LengthInv(s', lane) && FifoInv(s', lane) {
          LoopLength(s, choice, lane);
          LoopFifo(s, choice, lane);
        }
    }
  }

  lemma WatchedStep(s: State, move: Move)
    requires Inv(s) && Watched(s) && !Misreads(s, move)
    ensures Watched(Step(s, move))
  {
    var s' := Step(s, move);
    if !s'.loop.Stopped? {
      forall lane ensures Noticed(s', lane) {
        assert LengthInv(s, lane) && Noticed(s, lane);
        match move
        case CallerMoves(t, l, task) => if t in s.callers { CallerNoticed(s, t, l, task, lane); }
        case LoopMoves(choice) => LoopNoticed(s, choice, lane);
      }
    }
  }

  lemma {:induction false} Reachable(tids: set<Tid>, moves: seq<Move>)
    ensures Inv(Exec(tids, moves))
    decreases |moves|
  {
    if moves == [] {
      var s := Init(tids);
      assert Writers(s.callers) == {} && Uncounted(s.callers, Urgent) == {} && Uncounted(s.callers, Low) == {};
      forall lane ensures LengthInv(s, lane) && FifoInv(s, lane) {
        assert lane == Urgent || lane == Low;
      }
    } else {
      Reachable(tids, moves[..|moves| - 1]);
      InvStep(Exec(tids, moves[..|moves| - 1]), moves[|moves| - 1]);
    }
  }

  /** No test of the run misreads a length that has wrapped around. */
  ghost predicate NeverMisreads(tids: set<Tid>, moves: seq<Move>) {
    forall i :: 0 <= i < |moves| ==> !Misreads(Exec(tids, moves[..i]), moves[i])
  }

  lemma {:induction false} AlwaysWatched(tids: set<Tid>, moves: seq<Move>)
    requires NeverMisreads(tids, moves)
    ensures Watched(Exec(tids, moves))
    decreases |moves|
  {
    if moves == [] {
    } else {
      var n := |moves| - 1;
      var before := moves[..n];
      assert forall i :: 0 <= i < n ==> before[..i] == moves[..i];
      AlwaysWatched(tids, before);
      Reachable(tids, before);
      WatchedStep(Exec(tids, before), moves[n]);
    }
  }

  // ---------------------------------------------------------------------------------------------
  // Results

  /** Polling is in epoll_wait and no signal is pending. */
  predicate Asleep(s: State) {
    s.loop.Waiting? && s.efd == 0
  }

  /** No Trigger or UrgentTrigger is past its call and before its return. */
  predicate Quiet(s: State) {
    forall t :: t in s.callers ==> s.callers[t].Idle?
  }

  /** Token conservation: until a shutdown wakeupCall is 1 exactly while one signal is pending, about to be
      written, or being worked off. So no more than one is ever outstanding, and a write never meets
      EAGAIN; also after a shutdown. */
  lemma OneTokenAtMost(tids: set<Tid>, moves: seq<Move>)
    ensures var s := Exec(tids, moves);
            && s.efd + |Writers(s.callers)| <= s.wakeupCall <= 1
            && (!s.loop.Stopped? ==>
                  s.wakeupCall == s.efd + |Writers(s.callers)| + One(Draining(s.loop)) + One(s.loop.Writing?))
  {
    Reachable(tids, moves);
  }

  /** No lost wake-up: unless a test misreads a length that has wrapped around, whenever Polling sleeps
      with no signal pending while a task is queued, some Trigger that has linked its task has yet to try
      the CAS or to write the signal it owes. So when no Trigger is in flight either, both queues are
      empty. */
  lemma {:induction false} NoLostWakeUp(tids: set<Tid>, moves: seq<Move>)
    requires NeverMisreads(tids, moves)
    ensures var s := Exec(tids, moves);
            Asleep(s) && (s.urgent.items != [] || s.low.items != []) ==>
              exists t :: t in s.callers && (s.callers[t].Counting? || s.callers[t].Casing? || s.callers[t].Writing?)
    ensures var s := Exec(tids, moves);
            Asleep(s) && Quiet(s) ==> s.urgent.items == [] && s.low.items == []
  {
    Reachable(tids, moves);
    AlwaysWatched(tids, moves);
    var s := Exec(tids, moves);
    if Asleep(s) && (s.urgent.items != [] || s.low.items != []) {
      assert Noticed(s, Urgent) && Noticed(s, Low);
      if s.wakeupCall == 1 {
        var t :| t in Writers(s.callers);
      }
    }
  }

  /** A test of a queue of fewer than 2^32 tasks, when there are as few callers, reads its length right. */
  lemma ShortIsRead(s: State, lane: Lane)
    requires LengthInv(s, lane) && s.loop == Testing(lane)
    requires |s.callers.Keys| < 0x1_0000_0000 && |Of(s, lane).items| < 0x1_0000_0000
    ensures forall choice :: !Misreads(s, LoopMoves(choice))
  {
    SubsetSize(Uncounted(s.callers, lane), s.callers.Keys);
  }

  /** There are fewer than 2^32 callers, and wherever Polling tests a queue, the queue holds fewer than
      2^32 tasks: then no test misreads. */
  lemma ShortQueuesAreRead(tids: set<Tid>, moves: seq<Move>)
    requires |tids| < 0x1_0000_0000
    requires forall i :: 0 <= i < |moves| ==>
               var s := Exec(tids, moves[..i]);
               s.loop.Testing? ==> |Of(s, s.loop.lane).items| < 0x1_0000_0000
    ensures NeverMisreads(tids, moves)
  {
    forall i | 0 <= i < |moves| ensures !Misreads(Exec(tids, moves[..i]), moves[i]) {
      var s := Exec(tids, moves[..i]);
      Reachable(tids, moves[..i]);
      CallersAreTids(tids, moves[..i]);
      if s.loop.Testing? && moves[i].LoopMoves? { ShortIsRead(s, s.loop.lane); }
    }
  }

  lemma {:induction false} CallersAreTids(tids: set<Tid>, moves: seq<Move>)
    ensures Exec(tids, moves).callers.Keys == tids
    decreases |moves|
  {
    if moves == [] {
    } else {
      CallersAreTids(tids, moves[..|moves| - 1]);
    }
  }

  lemma Snoc(tids: set<Tid>, moves: seq<Move>, move: Move)
    ensures Exec(tids, moves + [move]) == Step(Exec(tids, moves), move)
  {
    assert (moves + [move])[..|moves|] == moves;
  }

  /** Where a test misreads the wake-up is lost: when no Trigger is in flight and no signal is pending or
      due, the two tests send Polling to sleep over a task exactly if both lengths read 0 and one of the
      two has wrapped around to it. */
  lemma MisreadSleeps(tids: set<Tid>, moves: seq<Move>, a: Choice, b: Choice)
    requires var s := Exec(tids, moves); s.loop == Testing(Low) && Quiet(s) && s.wakeupCall == 0
    ensures var s, s' := Exec(tids, moves), Exec(tids, moves + [LoopMoves(a)] + [LoopMoves(b)]);
            && Quiet(s')
            && (Asleep(s') && (s'.urgent.items != [] || s'.low.items != []) <==>
                  IsEmpty(s.low) && IsEmpty(s.urgent) && !(s.low.length == 0 && s.urgent.length == 0))
  {
    var s := Exec(tids, moves);
    Snoc(tids, moves, LoopMoves(a));
    Snoc(tids, moves + [LoopMoves(a)], LoopMoves(b));
    Reachable(tids, moves);
    NobodyCounts(s, Urgent);
    NobodyCounts(s, Low);
    assert LengthInv(s, Urgent) && LengthInv(s, Low);
  }

  /** The same move, n times over */
  function Repeat(s: State, move: Move, n: nat): State {
    if n == 0 then s else Step(Repeat(s, move, n - 1), move)
  }

  lemma {:induction false} Repeats(tids: set<Tid>, moves: seq<Move>, move: Move, n: nat) returns (more: seq<Move>)
    ensures Exec(tids, more) == Repeat(Exec(tids, moves), move, n)
  {
    if n == 0 {
      more := moves;
    } else {
      more := Repeats(tids, moves, move, n - 1);
      Snoc(tids, more, move);
      more := more + [move];
    }
  }

  /** t posts an urgent task while wakeupCall is 1. */
  lemma PostOne(s: State, t: Tid, task: Task)
    requires t in s.callers && s.callers[t].Idle? && s.wakeupCall == 1
    ensures var q := s.urgent;
            Repeat(s, CallerMoves(t, Urgent, task), 4) ==
              s.(urgent := q.(items := q.items + [task], length := q.length + 1, posted := q.posted + [task]))
  {
    var move := CallerMoves(t, Urgent, task);
    var s1 := Step(s, move);
    var s2 := Step(s1, move);
    var s3 := Step(s2, move);
    assert Step(s3, move).callers == s.callers;
    assert Repeat(s, move, 1) == s1;
    assert Repeat(s, move, 2) == s2;
    assert Repeat(s, move, 3) == s3;
  }

  /** ... and n tasks */
  lemma {:induction false} PostMany(tids: set<Tid>, moves: seq<Move>, t: Tid, task: Task, n: nat)
      returns (more: seq<Move>)
    requires var s := Exec(tids, moves); t in s.callers && s.callers[t].Idle? && s.wakeupCall == 1
    ensures var s, s' := Exec(tids, moves), Exec(tids, more);
            && s' == s.(urgent := s'.urgent) && |s'.urgent.items| == |s.urgent.items| + n
            && s'.urgent.length == s.urgent.length + n
  {
    if n == 0 {
      more := moves;
    } else {
      var most := PostMany(tids, moves, t, task, n - 1);
      PostOne(Exec(tids, most), t, task);
      more := Repeats(tids, most, CallerMoves(t, Urgent, task), 4);
    }
  }

  /** Polling runs the only task, of the low queue. */
  lemma RunOne(t: Tid, task: Task) returns (moves: seq<Move>)
    ensures Exec({t}, moves) ==
            Init({t}).(wakeupCall := 1, low := Queue([], 0, [task], []), loop := Running(Low, 0, task))
  {
    var move := CallerMoves(t, Low, task);
    var s := Init({t});
    var s5 := s.(wakeupCall := 1, efd := 1, low := Queue([task], 1, [task], []));
    moves := Repeats({t}, [], move, 5);
    var s1 := Step(s, move);
    var s2 := Step(s1, move);
    var s3 := Step(s2, move);
    var s4 := Step(s3, move);
    assert Step(s4, move).callers == s.callers;
    assert Repeat(s, move, 1) == s1;
    assert Repeat(s, move, 2) == s2;
    assert Repeat(s, move, 3) == s3;
    assert Repeat(s, move, 4) == s4;
    assert Exec({t}, moves) == s5;
    var wakes := LoopMoves(Wakes);
    moves := Repeats({t}, moves, wakes, 5);
    var l1 := Step(s5, wakes);
    var l2 := Step(l1, wakes);
    var l3 := Step(l2, wakes);
    var l4 := Step(l3, wakes);
    assert Repeat(s5, wakes, 1) == l1;
    assert Repeat(s5, wakes, 2) == l2;
    assert Repeat(s5, wakes, 3) == l3;
    assert Repeat(s5, wakes, 4) == l4;
  }

  /** From there Polling empties the low queue and tests both. */
  lemma TestAfterRun(s: State)
    requires s.loop.Running? && s.loop.lane == Low && s.loop.i == 0
    requires s.low.items == [] && s.low.length == 0
    ensures var s' := Repeat(s, LoopMoves(Nothing), 5);
            && s'.urgent == s.urgent && s'.low.items == [] && s'.low.length == 0 && s'.efd == s.efd
            && s'.callers == s.callers && s'.wakeupCall == 0
            && s'.loop == if IsEmpty(s.urgent) then Waiting(0) else Loop.Casing
  {
    var move := LoopMoves(Nothing);
    var l1 := Step(s, move);
    var l2 := Step(l1, move);
    var l3 := Step(l2, move);
    var l4 := Step(l3, move);
    assert Repeat(s, move, 1) == l1;
    assert Repeat(s, move, 2) == l2;
    assert Repeat(s, move, 3) == l3;
    assert Repeat(s, move, 4) == l4;
  }

  /** The wake-up is lost: while Polling runs a task of the low queue n urgent tasks are posted, and then
      no more; Polling goes back to sleep over all of them exactly if n is a multiple of 2^32. */
  lemma WrapLosesWakeUp(t: Tid, task: Task, n: nat) returns (moves: seq<Move>)
    ensures var s := Exec({t}, moves);
            Quiet(s) && |s.urgent.items| == n && (Asleep(s) <==> n % 0x1_0000_0000 == 0)
  {
    var start := RunOne(t, task);
    var posted := PostMany({t}, start, t, task, n);
    moves := Repeats({t}, posted, LoopMoves(Nothing), 5);
    var s := Exec({t}, posted);
    assert s.urgent.length == n && s.efd == 0;
    TestAfterRun(s);
    EmptyAtZero(s.urgent);
  }

  lemma EmptyAtZero(q: Queue)
    ensures IsEmpty(q) <==> q.length % 0x1_0000_0000 == 0
  {
  }

  /** ... although IsEmpty may call a queue empty while it holds a task. */
  lemma LengthLags(t: Tid, lane: Lane, task: Task)
    ensures var s := Exec({t}, [CallerMoves(t, lane, task), CallerMoves(t, lane, task)]);
            Of(s, lane).items == [task] && Of(s, lane).length == 0
  {
    var one := [CallerMoves(t, lane, task)];
    var two := [CallerMoves(t, lane, task), CallerMoves(t, lane, task)];
    assert two[..1] == one && one[..0] == [];
    assert Exec({t}, one) == Step(Init({t}), one[0]);
    assert Exec({t}, two) == Step(Exec({t}, one), two[1]);
  }

  /** What epoll_wait reported last; nothing before the first time. */
  function LastReport(tids: set<Tid>, moves: seq<Move>): Choice {
    if moves == [] then Nothing
    else
      var n := |moves| - 1;
      var s := Exec(tids, moves[..n]);
      if moves[n].LoopMoves? && s.loop.Waiting? && (moves[n].choice == Wakes ==> s.efd > 0) then moves[n].choice
      else LastReport(tids, moves[..n])
  }

  /** Polling blocks in epoll_wait exactly when the last one reported nothing; after events of any kind, and
      so after its chores, it looks again without blocking first. */
  lemma {:induction false} BlocksAfterNothing(tids: set<Tid>, moves: seq<Move>)
    ensures var s := Exec(tids, moves);
            && (s.loop.Waiting? ==> s.loop.msec == if LastReport(tids, moves) == Nothing then -1 else 0)
            && (!s.loop.Waiting? && !s.loop.Stopped? ==> LastReport(tids, moves) == Wakes)
    decreases |moves|
  {
    if moves == [] {
    } else {
      BlocksAfterNothing(tids, moves[..|moves| - 1]);
    }
  }

  /** Tasks run in the order in which they were posted to their queue, none lost or repeated, in every
      state; and when Polling waits or has stopped, all that have not run are in the queue. */
  lemma TasksRunInOrder(tids: set<Tid>, moves: seq<Move>, lane: Lane)
    ensures var s := Exec(tids, moves);
            && Of(s, lane).ran <= Of(s, lane).posted
            && (s.loop.Waiting? || s.loop.Stopped? ==> Of(s, lane).posted == Of(s, lane).ran + Of(s, lane).items)
  {
    Reachable(tids, moves);
    assert FifoInv(Exec(tids, moves), lane);
  }

  // ---------------------------------------------------------------------------------------------
  // One round of chores

  /** Polling takes a step for each choice, and nobody else moves. */
  function Turns(s: State, choices: seq<Choice>): State
    decreases |choices|
  {
    if choices == [] then s else Turns(LoopStep(s, choices[0]), choices[1..])
  }

  /** The first k tasks of a queue q0 have been taken from it; all of them have run, but those in hand. */
  ghost predicate Taken(q0: Queue, q: Queue, k: int, hand: seq<Task>) {
    0 <= k <= |q0.items| && q.items == q0.items[k..] && q.ran + hand == q0.ran + q0.items[..k]
  }

  /** How many tasks of the low queue a round takes. */
  function Quota(q0: Queue): nat {
    if |q0.items| <= 256 then |q0.items| else 256
  }

  /** t is within the round of chores that began in s0, with no task posted since. */
  ghost predicate MidRound(s0: State, t: State) {
    var k := |s0.urgent.items| - |t.urgent.items|;
    match t.loop
    case Reading => t.urgent == s0.urgent && t.low == s0.low
    case Dequeuing(Urgent, _) => Taken(s0.urgent, t.urgent, k, []) && t.low == s0.low
    case Discounting(Urgent, _, task) => Taken(s0.urgent, t.urgent, k, [task]) && t.low == s0.low
    case Running(Urgent, _, task) => Taken(s0.urgent, t.urgent, k, [task]) && t.low == s0.low
    case Dequeuing(Low, i) => AllTaken(s0.urgent, t.urgent) && i <= 256 && Taken(s0.low, t.low, i, [])
    case Discounting(Low, i, task) => AllTaken(s0.urgent, t.urgent) && i < 256 && Taken(s0.low, t.low, i + 1, [task])
    case Running(Low, i, task) => AllTaken(s0.urgent, t.urgent) && i < 256 && Taken(s0.low, t.low, i + 1, [task])
    case Storing => AllTaken(s0.urgent, t.urgent) && Taken(s0.low, t.low, Quota(s0.low), [])
    case _ => false
  }

  ghost predicate AllTaken(q0: Queue, q: Queue) {
    Taken(q0, q, |q0.items|, [])
  }

  /** The steps that are left of it. */
  function ToGo(s0: State, t: State): int {
    var urgent, low := 3 * |t.urgent.items| + 1, 3 * Quota(s0.low) + 1;
    match t.loop
    case Reading => 1 + urgent + low
    case Dequeuing(Urgent, _) => urgent + low
    case Discounting(Urgent, _, _) => urgent + low + 2
    case Running(Urgent, _, _) => urgent + low + 1
    case Dequeuing(Low, i) => low - 3 * i
    case Discounting(Low, i, _) => low - 3 * i - 1
    case Running(Low, i, _) => low - 3 * i - 2
    case _ => 0
  }

  lemma TakeOne(q0: Queue, q: Queue, k: int)
    requires Taken(q0, q, k, []) && q.items != []
    ensures Taken(q0, q.(items := q.items[1..]), k + 1, [q.items[0]])
  {
    assert q.ran + [] == q.ran;
    assert q0.items[..k + 1] == q0.items[..k] + [q0.items[k]];
    Associate(q0.ran, q0.items[..k], [q0.items[k]]);
  }

  lemma RunTaken(q0: Queue, q: Queue, k: int, task: Task)
    requires Taken(q0, q, k, [task])
    ensures Taken(q0, q.(ran := q.ran + [task]), k, [])
  {
  }

  lemma UrgentStep(s0: State, t: State, choice: Choice)
    requires MidRound(s0, t) && choice != Shutdown && !t.loop.Reading? && !t.loop.Storing? && t.loop.lane == Urgent
    ensures MidRound(s0, LoopStep(t, choice))
    ensures 0 <= ToGo(s0, LoopStep(t, choice)) == ToGo(s0, t) - 1
  {
    var k := |s0.urgent.items| - |t.urgent.items|;
    match t.loop {
      case Dequeuing(_, _) => if t.urgent.items != [] { TakeOne(s0.urgent, t.urgent, k); }
      case Discounting(_, _, _) =>
      case Running(_, _, task) => RunTaken(s0.urgent, t.urgent, k, task);
    }
  }

  lemma LowStep(s0: State, t: State, choice: Choice)
    requires MidRound(s0, t) && choice != Shutdown && !t.loop.Reading? && !t.loop.Storing? && t.loop.lane == Low
    ensures MidRound(s0, LoopStep(t, choice))
    ensures 0 <= ToGo(s0, LoopStep(t, choice)) == ToGo(s0, t) - 1
  {
    match t.loop {
      case Dequeuing(_, i) => if i < 256 && t.low.items != [] { TakeOne(s0.low, t.low, i); }
      case Discounting(_, _, _) =>
      case Running(_, i, task) => RunTaken(s0.low, t.low, i + 1, task);
    }
  }

  lemma RoundStep(s0: State, t: State, choice: Choice)
    requires MidRound(s0, t) && !t.loop.Storing? && choice != Shutdown
    ensures MidRound(s0, LoopStep(t, choice))
    ensures 0 <= ToGo(s0, LoopStep(t, choice)) == ToGo(s0, t) - 1
  {
    if t.loop.Reading? {
    } else if t.loop.lane == Urgent {
      UrgentStep(s0, t, choice);
    } else {
      LowStep(s0, t, choice);
    }
  }

  lemma {:induction false} RoundSteps(s0: State, t: State, choices: seq<Choice>)
    requires MidRound(s0, t) && |choices| <= ToGo(s0, t) && Shutdown !in choices
    ensures MidRound(s0, Turns(t, choices)) && ToGo(s0, Turns(t, choices)) == ToGo(s0, t) - |choices|
    decreases |choices|
  {
    if choices == [] {
    } else {
      assert choices[0] in choices;
      RoundStep(s0, t, choices[0]);
      RoundSteps(s0, LoopStep(t, choices[0]), choices[1..]);
    }
  }

  /** d is where the round of chores that began in s gets to its store of 0: every urgent task has run, and
      of the tasks of the low queue the first 256. */
  ghost predicate RoundDone(s: State, d: State) {
    var k := Min(256, |s.low.items|);
    && d.urgent.items == [] && d.urgent.ran == s.urgent.ran + s.urgent.items
    && d.low.items == s.low.items[k..] && d.low.ran == s.low.ran + s.low.items[..k]
  }

  /** Until all the urgent tasks have run no other task does. */
  ghost predicate UrgentFirst(s: State, t: State) {
    t.low.ran != s.low.ran ==> t.urgent.items == [] && t.urgent.ran == s.urgent.ran + s.urgent.items
  }

  lemma MidRoundMeans(s: State, t: State)
    requires MidRound(s, t)
    ensures UrgentFirst(s, t) && ToGo(s, t) >= 0
    ensures t.loop.Storing? <==> ToGo(s, t) == 0
    ensures t.loop.Storing? ==> RoundDone(s, t)
  {
    if !t.loop.Reading? && (t.loop.Storing? || t.loop.lane == Low) {
      assert s.urgent.items[..|s.urgent.items|] == s.urgent.items && t.urgent.ran + [] == t.urgent.ran;
      assert t.low.ran + [] == t.low.ran;
    }
  }

  /** One round of chores, when nobody calls Trigger and nothing shuts Polling down: it runs all the urgent
      tasks, then the first 256 of the low queue, or all if there are fewer, each in three steps, and gets
      to its store of 0; the rest stay queued. */
  lemma OneRound(s: State, choices: seq<Choice>)
    requires s.loop.Reading? && Shutdown !in choices
    requires |choices| <= 3 * |s.urgent.items| + 3 * Min(256, |s.low.items|) + 3
    ensures var d := Turns(s, choices);
            && UrgentFirst(s, d)
            && (d.loop.Storing? <==> |choices| == 3 * |s.urgent.items| + 3 * Min(256, |s.low.items|) + 3)
            && (d.loop.Storing? ==> RoundDone(s, d))
  {
    RoundSteps(s, s, choices);
    MidRoundMeans(s, Turns(s, choices));
  }

  // ---------------------------------------------------------------------------------------------
  // Left to itself Polling runs every task

  /** Polling moves alone: the kernel reports the eventfd when it is readable, and nobody shuts down. */
  function Alone(s: State, n: nat): State
    decreases n
  {
    if n == 0 then s else Alone(LoopStep(s, if s.efd > 0 then Wakes else Nothing), n - 1)
  }

  function Left(s: State): nat {
    |s.urgent.items| + |s.low.items|
  }

  /** An upper bound on the steps Polling has to take before it sleeps for good. */
  function Rank(s: State): nat {
    var n := 30 * Left(s);
    match s.loop
    case Waiting(msec) => if s.efd > 0 then n + 12 else if msec == -1 then 0 else 1
    case Reading => n + 11
    case Dequeuing(Urgent, _) => n + 10
    case Dequeuing(Low, i) => if Left(s) == 0 || (s.low.items != [] && i == 0) then n + 9 else n + 20
    case Discounting(_, _, _) => n + 25
    case Running(_, _, _) => n + 24
    case Storing => if Left(s) == 0 then 8 else n + 18
    case Testing(Low) => if Left(s) == 0 && s.efd == 0 then 7 else n + 17
    case Testing(Urgent) => if Left(s) == 0 && s.efd == 0 then 6 else n + 16
    case Casing => n + 15
    case Writing => n + 14
    case Stopped => 0
  }

  lemma RankBound(s: State)
    ensures Rank(s) <= 30 * Left(s) + 25
  {
  }

  lemma NobodyCounts(s: State, lane: Lane)
    requires Quiet(s)
    ensures Uncounted(s.callers, lane) == {} && Writers(s.callers) == {}
  {
  }

  /** Polling goes on, unless a test misreads a length. */
  ghost predicate Lives(s: State) {
    Inv(s) && Watched(s) && Quiet(s) && !s.loop.Stopped? && forall lane :: |Of(s, lane).items| < 0x1_0000_0000
  }

  /** IsEmpty is right when nobody calls Trigger. */
  lemma TestsRight(s: State, lane: Lane)
    requires LengthInv(s, lane) && s.loop == Testing(lane) && Quiet(s) && |Of(s, lane).items| < 0x1_0000_0000
    ensures IsEmpty(Of(s, lane)) <==> Of(s, lane).items == []
    ensures Of(s, lane).length == |Of(s, lane).items|
  {
    NobodyCounts(s, lane);
  }

  /** When nobody calls Trigger, each step of Polling lowers the rank. */
  lemma AloneSinks(s: State, choice: Choice)
    requires choice == (if s.efd > 0 then Wakes else Nothing)
    requires TokenInv(s) && !s.loop.Stopped? && !(Asleep(s) && s.loop.msec == -1) && Writers(s.callers) == {}
    requires s.loop.Testing? ==> (IsEmpty(Of(s, s.loop.lane)) <==> Of(s, s.loop.lane).items == [])
    ensures Rank(LoopStep(s, choice)) < Rank(s)
    ensures forall lane :: Of(LoopStep(s, choice), lane).posted == Of(s, lane).posted
  {
  }

  lemma AloneStep(s: State)
    requires Lives(s) && !(Asleep(s) && s.loop.msec == -1)
    ensures var s' := LoopStep(s, if s.efd > 0 then Wakes else Nothing);
            Lives(s') && Rank(s') < Rank(s) && forall lane :: Of(s', lane).posted == Of(s, lane).posted
  {
    var move := LoopMoves(if s.efd > 0 then Wakes else Nothing);
    if s.loop.Testing? { TestsRight(s, s.loop.lane); }
    NobodyCounts(s, Urgent);
    AloneSinks(s, move.choice);
    InvStep(s, move);
    WatchedStep(s, move);
  }

  lemma {:induction false} AloneRunsDry(s: State) returns (n: nat)
    requires Lives(s)
    ensures n <= Rank(s)
    ensures var d := Alone(s, n);
            && Asleep(d) && d.loop.msec == -1 && Lives(d)
            && forall lane :: Of(d, lane).posted == Of(s, lane).posted
    decreases Rank(s)
  {
    if Asleep(s) && s.loop.msec == -1 {
      n := 0;
    } else {
      AloneStep(s);
      var k := AloneRunsDry(LoopStep(s, if s.efd > 0 then Wakes else Nothing));
      n := k + 1;
    }
  }

  /** When Polling has blocked and nobody calls Trigger, every task posted has run. */
  lemma AllHaveRun(s: State, lane: Lane)
    requires Lives(s) && Asleep(s)
    ensures Of(s, lane).ran == Of(s, lane).posted && Of(s, lane).items == []
  {
    NobodyCounts(s, lane);
    assert Noticed(s, lane) && FifoInv(s, lane);
  }

  lemma {:induction false} LivesOn(tids: set<Tid>, moves: seq<Move>, s: State)
    requires NeverMisreads(tids, moves) && s == Exec(tids, moves)
    requires Quiet(s) && !s.loop.Stopped? && forall lane :: |Of(s, lane).items| < 0x1_0000_0000
    ensures Lives(s)
  {
    Reachable(tids, moves);
    AlwaysWatched(tids, moves);
  }

  /** From every reachable state in which no Trigger is in flight, Polling left to itself runs every task
      posted so far, in order, within 30 steps a task and 25 more, and then blocks in epoll_wait; if no
      test has misread a length, and fewer than 2^32 tasks are queued. */
  lemma EveryTaskRuns(tids: set<Tid>, moves: seq<Move>) returns (n: nat)
    requires NeverMisreads(tids, moves) && Quiet(Exec(tids, moves)) && !Exec(tids, moves).loop.Stopped?
    requires forall lane :: |Of(Exec(tids, moves), lane).items| < 0x1_0000_0000
    ensures n <= 30 * Left(Exec(tids, moves)) + 25
    ensures var s, d := Exec(tids, moves), Alone(Exec(tids, moves), n);
            && Asleep(d) && d.loop.msec == -1
            && forall lane :: Of(d, lane).ran == Of(s, lane).posted
  {
    var s := Exec(tids, moves);
    LivesOn(tids, moves, s);
    n := AloneRunsDry(s);
    var d := Alone(s, n);
    forall lane ensures Of(d, lane).ran == Of(s, lane).posted { AllHaveRun(d, lane); }
  }
}
