/** Runs over the real queues that end: what Polling does when it is left to itself, and how a run of
    Poller's model is carried out one atomic access at a time. */
module PollerRuns {
  import opened Bytes
  import opened Wrappers
  import Q = LockFreeQueue
  import QT = QueueTheorems
  import P = Poller
  import opened PollerQueues

  // ---------------------------------------------------------------------------------------------
  // A thread that runs alone soon leaves its Enqueue or Dequeue

  /** An upper bound on the accesses a lone consumer makes before one that shows in Poller's model; once it
      has loaded a nil, of the urgent queue, that one is in its next Dequeue. */
  function DequeueRank(m: Q.Mem, at: Q.DeqAt): nat {
    match at
    case LoadHead => if m.tail == m.head then 10 else 5
    case LoadTail(_) => if m.tail == m.head then 9 else 4
    case LoadNext(head, tail) => if tail == head then 8 else 3
    case Check(head, tail, next) => if next.None? then 12 else if tail == head then 7 else 2
    case Help(_, _) => 6
    case _ => 1
  }

  lemma DequeueSinks(m: Q.Mem, k: Q.Chain, at: Q.DeqAt)
    requires Q.ChainInv(m, k) && Q.DeqInv(m, k, at) && AtHead(m, at)
    requires !Q.Unlinks(m, Q.Dequeuing(at)) && !at.Uncount? && !(at.LoadNext? && Q.NextOf(m, at.head).None?)
    ensures var (m', pc') := Q.ActDequeue(m, at);
            pc'.Dequeuing? ==> DequeueRank(m', pc'.deq) < DequeueRank(m, at)
  {
  }

  /** The last node is not the one at tail. */
  predicate Lags(m: Q.Mem) {
    Q.NextOf(m, m.tail).Some?
  }

  /** The same for a lone producer. */
  function EnqueueRank(m: Q.Mem, at: Q.EnqAt): nat {
    match at
    case LoadTail => if Lags(m) then 8 else 4
    case LoadNext(tail) => if tail != m.tail then 10 else if Lags(m) then 7 else 3
    case Check(tail, next) =>
      if tail != m.tail then 9 else if next.Some? then 6 else if Lags(m) then 10 else 2
    case Link(tail) => if Q.CanLink(m, tail) then 1 else 9
    case Help(tail, _) => if tail == m.tail then 5 else 9
    case Swing(_) => 1
    case Count => 0
  }

  lemma EnqueueSinks(m: Q.Mem, k: Q.Chain, n: Q.NodeId, at: Q.EnqAt)
    requires Q.ChainInv(m, k) && Q.EnqInv(m, k, n, at) && !Q.Links(m, Q.Enqueuing(n, at)) && !at.Count?
    ensures var (m', pc') := Q.ActEnqueue(m, n, at);
            pc'.Enqueuing? && EnqueueRank(m', pc'.enq) < EnqueueRank(m, at)
  {
    assert at.Help? && at.tail == m.tail ==> k.pos[at.succ] == k.t + 1;
  }

  function LoopRank(w: World): (r: nat)
    ensures r <= 12
  {
    match w.loop
    case Calling(_, _) => 11
    case Dequeuing(lane, _) =>
      var pc := Pc(Of(w, lane), w.me);
      if pc.Dequeuing? then DequeueRank(Mem(Of(w, lane)), pc.deq) else 0
    case _ => 0
  }

  function CallerRank(w: World, t: Tid): nat {
    if t in w.callers && w.callers[t].Enqueuing? then
      var q := Of(w, w.callers[t].lane);
      if Pc(q, t).Enqueuing? then EnqueueRank(Mem(q), Pc(q, t).enq) else 0
    else 0
  }

  lemma CallingSinks(w: World, choice: P.Choice)
    requires Inv(w) && w.loop.Calling? && MoveOf(w, P.LoopMoves(choice)).None?
    ensures LoopRank(LoopStep(w, choice)) < LoopRank(w)
  {
    var lane := w.loop.lane;
    assert LaneInv(w, lane);
    MeIsIdle(w, lane);
    AdvanceActs(Of(w, lane), w.me, Q.Dequeue);
  }

  lemma DequeuingSinks(w: World, choice: P.Choice)
    requires Inv(w) && w.loop.Dequeuing? && MoveOf(w, P.LoopMoves(choice)).None?
    ensures LoopRank(LoopStep(w, choice)) < LoopRank(w)
  {
    var q := Of(w, w.loop.lane);
    var c := Q.Exec(q.tids, q.sched);
    LoadSim(w);
    AdvanceActs(q, w.me, Q.Dequeue);
    OneMore(q, w.me, Q.Dequeue);
    assert Q.PcInv(c.s.m, c.k, c.s.threads[w.me]);
    DequeueSinks(c.s.m, c.k, Pc(q, w.me).deq);
  }

  lemma LoopSinks(w: World, choice: P.Choice)
    requires Inv(w) && MoveOf(w, P.LoopMoves(choice)).None?
    ensures LoopRank(LoopStep(w, choice)) < LoopRank(w)
  {
    if w.loop.Dequeuing? {
      DequeuingSinks(w, choice);
    } else {
      CallingSinks(w, choice);
    }
  }

  lemma CallerSinks(w: World, t: Tid, lane: P.Lane, task: Task)
    requires Inv(w) && t in w.callers && MoveOf(w, P.CallerMoves(t, lane, task)).None?
    ensures CallerRank(CallerStep(w, t, lane, task), t) < CallerRank(w, t)
  {
    var l := w.callers[t].lane;
    var q := Of(w, l);
    assert LaneInv(w, l);
    AdvanceActs(q, t, Q.Dequeue);
    OneMore(q, t, Q.Dequeue);
    var c := Q.Exec(q.tids, q.sched);
    assert Q.PcInv(c.s.m, c.k, c.s.threads[t]);
    EnqueueSinks(c.s.m, c.k, Pc(q, t).n, Pc(q, t).enq);
  }

  function StutterRank(w: World, move: P.Move): nat {
    match move
    case CallerMoves(t, _, _) => CallerRank(w, t)
    case LoopMoves(_) => LoopRank(w)
  }

  // ---------------------------------------------------------------------------------------------
  // Every run of Poller's model is one over the real queues

  lemma Snoc(tids: set<Tid>, me: Tid, moves: seq<P.Move>, move: P.Move)
    ensures Exec(tids, me, moves + [move]) == Step(Exec(tids, me, moves), move)
  {
    assert (moves + [move])[..|moves|] == moves;
  }

  /** A step of the model, as the accesses that lead up to it and the one that shows */
  lemma {:induction false} RealizesStep(tids: set<Tid>, me: Tid, moves: seq<P.Move>, move: P.Move)
      returns (more: seq<P.Move>)
    requires me !in tids
    ensures Abs(Exec(tids, me, more)) == P.Step(Abs(Exec(tids, me, moves)), move)
    decreases StutterRank(Exec(tids, me, moves), move)
  {
    var w := Exec(tids, me, moves);
    Simulates(tids, me, moves);
    if move.CallerMoves? && move.t !in w.callers {
      more := moves;
    } else {
      Snoc(tids, me, moves, move);
      StepSim(w, move);
      more := moves + [move];
      if MoveOf(w, move).None? {
        match move {
          case CallerMoves(t, lane, task) => CallerSinks(w, t, lane, task);
          case LoopMoves(choice) => LoopSinks(w, choice);
        }
        more := RealizesStep(tids, me, more, move);
      }
    }
  }

  /** The converse of Simulates: every run of Poller's model is what some run over the real queues shows. */
  lemma {:induction false} Realizes(tids: set<Tid>, me: Tid, model: seq<P.Move>) returns (moves: seq<P.Move>)
    requires me !in tids
    ensures Abs(Exec(tids, me, moves)) == P.Exec(tids, model)
    decreases |model|
  {
    if model == [] {
      moves := [];
      InitSim(tids, me);
    } else {
      var n := |model| - 1;
      moves := Realizes(tids, me, model[..n]);
      moves := RealizesStep(tids, me, moves, model[n]);
    }
  }

  /** The wake-up is lost over the real queues too: there is a run after which no Trigger is in flight and
      the list of urgent tasks holds n, and Polling sleeps over them exactly if n is a multiple of 2^32. */
  lemma WrapLosesWakeUp(t: Tid, me: Tid, task: Task, n: nat) returns (moves: seq<P.Move>)
    requires t != me
    ensures var w := Exec({t}, me, moves);
            && Quiet(w) && |Q.Contents(Mem(w.urgent))| == n
            && (Asleep(w) <==> n % 0x1_0000_0000 == 0)
  {
    var model := P.WrapLosesWakeUp(t, task, n);
    moves := Realizes({t}, me, model);
    Shown(Exec({t}, me, moves));
  }

  lemma Shown(w: World)
    ensures P.Quiet(Abs(w)) <==> Quiet(w)
    ensures P.Asleep(Abs(w)) <==> Asleep(w)
    ensures Asleep(w) ==> Abs(w).loop.msec == w.loop.msec
  {
    var s := Abs(w);
    assert s.callers.Keys == w.callers.Keys;
    if P.Quiet(s) {
      forall t | t in w.callers ensures w.callers[t].Idle? { assert s.callers[t].Idle?; }
    }
  }

  // ---------------------------------------------------------------------------------------------
  // One round of chores

  /** Polling makes an access for each choice, and nobody else moves. */
  function Turns(w: World, choices: seq<P.Choice>): World
    decreases |choices|
  {
    if choices == [] then w else Turns(LoopStep(w, choices[0]), choices[1..])
  }

  ghost predicate InRound(s0: P.State, w: World) {
    Inv(w) && InTurn(w) && P.MidRound(s0, Abs(w))
  }

  /** An upper bound on the accesses that are left of the round */
  ghost function ToGo(s0: P.State, w: World): int {
    13 * P.ToGo(s0, Abs(w)) + LoopRank(w)
  }

  lemma {:induction false} RoundStep(s0: P.State, w: World, choice: P.Choice)
    requires InRound(s0, w) && !w.loop.Storing? && choice != P.Shutdown
    ensures InRound(s0, LoopStep(w, choice))
    ensures ToGo(s0, LoopStep(w, choice)) < ToGo(s0, w)
  {
    StepSim(w, P.LoopMoves(choice));
    if MoveOf(w, P.LoopMoves(choice)).Some? {
      P.RoundStep(s0, Abs(w), choice);
    } else {
      LoopSinks(w, choice);
    }
  }

  /** The first n accesses take Polling from w to its store of 0; and low tasks run after the urgent. */
  ghost predicate RoundIn(s0: P.State, w: World, choices: seq<P.Choice>, n: nat)
    requires n <= |choices|
  {
    && Turns(w, choices[..n]).loop.Storing? && P.RoundDone(s0, Abs(Turns(w, choices[..n])))
    && forall j :: 0 <= j < n ==>
         !Turns(w, choices[..j]).loop.Storing? && P.UrgentFirst(s0, Abs(Turns(w, choices[..j])))
  }

  lemma TurnsCons(w: World, choices: seq<P.Choice>, j: nat)
    requires 0 < j <= |choices|
    ensures Turns(w, choices[..j]) == Turns(LoopStep(w, choices[0]), choices[1..][..j - 1])
  {
    assert choices[..j][1..] == choices[1..][..j - 1];
  }

  lemma RoundLater(s0: P.State, w: World, choices: seq<P.Choice>, n: nat)
    requires choices != [] && n < |choices| && RoundIn(s0, LoopStep(w, choices[0]), choices[1..], n)
    requires !w.loop.Storing? && P.UrgentFirst(s0, Abs(w))
    ensures RoundIn(s0, w, choices, n + 1)
  {
    TurnsCons(w, choices, n + 1);
    forall j | 0 <= j < n + 1
      ensures !Turns(w, choices[..j]).loop.Storing? && P.UrgentFirst(s0, Abs(Turns(w, choices[..j])))
    {
      if j > 0 { TurnsCons(w, choices, j); }
    }
  }

  lemma {:induction false} RoundEnds(s0: P.State, w: World, choices: seq<P.Choice>) returns (n: nat)
    requires InRound(s0, w) && P.Shutdown !in choices && ToGo(s0, w) <= |choices|
    ensures n <= |choices| && RoundIn(s0, w, choices, n)
    decreases |choices|
  {
    P.MidRoundMeans(s0, Abs(w));
    if w.loop.Storing? {
      n := 0;
    } else {
      var choice := choices[0];
      assert choice in choices;
      RoundStep(s0, w, choice);
      P.MidRoundMeans(s0, Abs(LoopStep(w, choice)));
      n := RoundEnds(s0, LoopStep(w, choice), choices[1..]);
      RoundLater(s0, w, choices, n);
      n := n + 1;
    }
  }

  /** One round of chores over the real queues, from every reachable state in which Polling has just been
      woken, when nobody calls Trigger and nothing shuts Polling down: within 39 accesses for each task it
      may run, and 51 more, it gets to its store of 0, with every urgent task run, and then the first 256 of
      the low list, or all if there are fewer; the rest stay in the list. */
  lemma {:induction false} OneRound(tids: set<Tid>, me: Tid, moves: seq<P.Move>, choices: seq<P.Choice>) returns (n: nat)
    requires me !in tids && Exec(tids, me, moves).loop.Reading? && P.Shutdown !in choices
    requires var w := Exec(tids, me, moves);
             |choices| >= 39 * |Q.Contents(Mem(w.urgent))| + 39 * Min(256, |Q.Contents(Mem(w.low))|) + 51
    ensures n <= |choices| && RoundIn(Abs(Exec(tids, me, moves)), Exec(tids, me, moves), choices, n)
    ensures var w := Exec(tids, me, moves);
            var d, k := Turns(w, choices[..n]), Min(256, |Q.Contents(Mem(w.low))|);
            && d.loop.Storing?
            && Q.Contents(Mem(d.urgent)) == [] && d.urgent.ran == w.urgent.ran + Q.Contents(Mem(w.urgent))
            && Q.Contents(Mem(d.low)) == Q.Contents(Mem(w.low))[k..]
            && d.low.ran == w.low.ran + Q.Contents(Mem(w.low))[..k]
  {
    var w := Exec(tids, me, moves);
    Simulates(tids, me, moves);
    n := RoundEnds(Abs(w), w, choices);
    Done(w, Turns(w, choices[..n]));
  }

  lemma Done(w: World, d: World)
    requires P.RoundDone(Abs(w), Abs(d))
    ensures var k := Min(256, |Q.Contents(Mem(w.low))|);
            && Q.Contents(Mem(d.urgent)) == [] && d.urgent.ran == w.urgent.ran + Q.Contents(Mem(w.urgent))
            && Q.Contents(Mem(d.low)) == Q.Contents(Mem(w.low))[k..]
            && d.low.ran == w.low.ran + Q.Contents(Mem(w.low))[..k]
  {
  }

  // ---------------------------------------------------------------------------------------------
  // Left to itself Polling runs every task

  /** Polling moves alone: the kernel reports the eventfd when it is readable, and nobody shuts down. */
  function Alone(w: World, n: nat): World
    decreases n
  {
    if n == 0 then w else Alone(LoopStep(w, if w.efd > 0 then P.Wakes else P.Nothing), n - 1)
  }

  function Left(w: World): nat {
    |Q.Contents(Mem(w.urgent))| + |Q.Contents(Mem(w.low))|
  }

  /** Polling has blocked in epoll_wait. */
  predicate Blocked(w: World) {
    Asleep(w) && w.loop.msec == -1
  }

  ghost function Rank(w: World): nat {
    13 * P.Rank(Abs(w)) + LoopRank(w)
  }

  ghost predicate Lives(w: World) {
    Inv(w) && InTurn(w) && P.Lives(Abs(w))
  }

  ghost predicate SamePosts(w: World, w': World) {
    forall lane :: Of(w', lane).posted == Of(w, lane).posted
  }

  lemma PostsOf(w: World, lane: P.Lane)
    ensures P.Of(Abs(w), lane) == AbsQueue(Of(w, lane))
  {
  }

  lemma AloneKeeps(w: World, choice: P.Choice)
    requires Lives(w) && !Blocked(w) && choice == if w.efd > 0 then P.Wakes else P.Nothing
    ensures var w' := LoopStep(w, choice); Lives(w') && Rank(w') < Rank(w) && SamePosts(w, w')
  {
    Shown(w);
    StepSim(w, P.LoopMoves(choice));
    if MoveOf(w, P.LoopMoves(choice)).Some? {
      P.AloneStep(Abs(w));
    } else {
      LoopSinks(w, choice);
    }
    forall lane: P.Lane ensures Of(LoopStep(w, choice), lane).posted == Of(w, lane).posted {
      PostsOf(w, lane);
      PostsOf(LoopStep(w, choice), lane);
    }
  }

  lemma AloneStep(w: World) returns (w': World)
    requires Lives(w) && !Blocked(w)
    ensures Lives(w') && Rank(w') < Rank(w) && SamePosts(w, w')
    ensures forall k: nat :: Alone(w, k + 1) == Alone(w', k)
  {
    var choice := if w.efd > 0 then P.Wakes else P.Nothing;
    AloneKeeps(w, choice);
    w' := LoopStep(w, choice);
  }

  lemma {:induction false} AloneRunsDry(w: World) returns (n: nat, d: World)
    requires Lives(w)
    ensures n <= Rank(w) && d == Alone(w, n)
    ensures Blocked(d) && Lives(d) && SamePosts(w, d)
    decreases Rank(w)
  {
    if Blocked(w) {
      n, d := 0, w;
    } else {
      var w' := AloneStep(w);
      n, d := AloneRunsDry(w');
      assert Alone(w, n + 1) == Alone(w', n);
      n := n + 1;
    }
  }

  /** Polling can go on: no Trigger is in flight, and each list holds fewer than 2^32 tasks. */
  ghost predicate Ready(w: World) {
    Quiet(w) && !w.loop.Stopped? && forall lane :: |Q.Contents(Mem(Of(w, lane)))| < 0x1_0000_0000
  }

  lemma ReadyThere(w: World)
    requires Ready(w)
    ensures var s := Abs(w);
            P.Quiet(s) && !s.loop.Stopped? && forall lane :: |P.Of(s, lane).items| < 0x1_0000_0000
  {
    Shown(w);
    forall lane: P.Lane ensures |P.Of(Abs(w), lane).items| < 0x1_0000_0000 { PostsOf(w, lane); }
  }

  lemma {:induction false} Alive(tids: set<Tid>, me: Tid, moves: seq<P.Move>)
    requires me !in tids && NeverMisreads(tids, me, moves) && Ready(Exec(tids, me, moves))
    ensures Lives(Exec(tids, me, moves))
  {
    Simulates(tids, me, moves);
    NeverThere(tids, me, moves);
    ReadyThere(Exec(tids, me, moves));
    P.LivesOn(tids, Model(tids, me, moves), Abs(Exec(tids, me, moves)));
  }

  lemma RankBound(w: World)
    ensures Rank(w) <= 390 * Left(w) + 337
  {
    PostsOf(w, P.Urgent);
    PostsOf(w, P.Low);
    P.RankBound(Abs(w));
  }

  /** From every reachable state in which no Trigger is in flight, Polling left to itself runs every task
      posted so far, in order, within 390 atomic accesses a task and 337 more, and then blocks in
      epoll_wait; if no test has misread a length, and each list holds fewer than 2^32 tasks. */
  lemma {:induction false} EveryTaskRuns(tids: set<Tid>, me: Tid, moves: seq<P.Move>) returns (n: nat)
    requires me !in tids && NeverMisreads(tids, me, moves) && Ready(Exec(tids, me, moves))
    ensures n <= 390 * Left(Exec(tids, me, moves)) + 337
    ensures var w, d := Exec(tids, me, moves), Alone(Exec(tids, me, moves), n);
            && Blocked(d)
            && forall lane :: Of(d, lane).ran == Of(w, lane).posted
  {
    var w := Exec(tids, me, moves);
    Alive(tids, me, moves);
    var d;
    n, d := AloneRunsDry(w);
    RankBound(w);
    Shown(d);
    forall lane: P.Lane ensures Of(d, lane).ran == Of(w, lane).posted {
      P.AllHaveRun(Abs(d), lane);
      PostsOf(d, lane);
    }
  }
}
