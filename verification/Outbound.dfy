/** The outbound stream of a connection, on values: what Write, writev, WriteFlush and Close of
    connection_unix.go do to the bytes, to the poll registration and to the write lock. */
module Outbound {
  import opened Bytes

  const IOV_MAX := 1024

  /** What the kernel answers to a write of bytes: try again, an error, or room for some of them. */
  datatype Answer = Again | Fatal | Takes(room: nat)

  datatype Errno = NoError | EAGAIN | ENOENT | ECONNRESET | EFATAL

  /** The count write(2) reports: at least 1 of the bytes offered, 0 for an empty write, -1 on error.
      A closed descriptor is an error. */
  function Sent(open: bool, a: Answer, offered: nat): (n: int)
    ensures -1 <= n <= offered
    ensures n == -1 <==> !open || a == Fatal || (a == Again && offered > 0)
    ensures n == 0 <==> open && a != Fatal && offered == 0
  {
    if !open || a == Fatal then -1
    else if offered == 0 then 0
    else if a == Again then -1
    else Min(a.room + 1, offered)
  }

  function ErrnoOf(open: bool, a: Answer, offered: nat): Errno {
    if Sent(open, a, offered) >= 0 then NoError else if open && a == Again then EAGAIN else EFATAL
  }

  /** A vectored write of more slices than IOV_MAX is an error. */
  function VectorAnswer(slices: nat, a: Answer): Answer {
    if slices > IOV_MAX then Fatal else a
  }

  /** A Close goes through three points at which it does not hold the lock; how many calls are at each
      is counted, as other calls may come in between. */
  datatype State = State(
    wire: seq<byte>,    // all the bytes the kernel took
    pending: seq<byte>, // the outbound buffer
    lost: seq<byte>,    // what the buffer held when it was released
    interest: bool,     // the descriptor is registered for write events
    registered: bool,   // the descriptor is registered at all
    open: bool,
    held: bool,         // a call holds writeMtx for ever
    drained: nat,       // Close calls between their drain loop and the poller's Delete
    deleted: nat,       // between that and the close of the descriptor
    shut: nat           // between that and release
  )

  const FRESH := State([], [], [], false, true, true, false, 0, 0, 0)

  /** Write, or writev, of data. netpoll.ModReadWrite fails if the descriptor is not registered. */
  function Accept(s: State, data: seq<byte>, a: Answer): State {
    var n := Sent(s.open, a, |data|);
    if s.held then s
    else if s.pending != [] then s.(pending := s.pending + data)
    else if n > 0 then
      s.(wire := s.wire + data[..n], pending := data[n..], interest := s.interest || (n < |data| && s.registered))
    else if ErrnoOf(s.open, a, |data|) == EAGAIN then s.(pending := data, interest := s.interest || s.registered)
    else s.(held := true) // Close waits for the lock its caller holds
  }

  /** A write of n bytes, and the buffering of the rest, if there is any. */
  lemma AcceptSent(s: State, data: seq<byte>, a: Answer, n: nat, t: State)
    requires !s.held && s.pending == [] && 0 < n == Sent(s.open, a, |data|)
    requires n == |data| ==> t == s.(wire := s.wire + data[..n])
    requires n < |data| ==>
               t == s.(wire := s.wire + data[..n], pending := s.pending + data[n..],
                       interest := s.registered || s.interest)
    ensures t == Accept(s, data, a)
  {
    EmptyLeft(data[n..]);
  }

  /** A write that fails, or writes nothing. */
  lemma AcceptNone(s: State, data: seq<byte>, a: Answer, t: State)
    requires !s.held && s.pending == [] && Sent(s.open, a, |data|) <= 0
    requires t == if ErrnoOf(s.open, a, |data|) == EAGAIN
                  then s.(pending := s.pending + data, interest := s.registered || s.interest)
                  else s.(held := true)
    ensures t == Accept(s, data, a)
  {
    EmptyLeft(data);
  }

  /** What Write and writev return: all the bytes, or -1 when they were all buffered because the kernel
      had no room; and the error of ModReadWrite, if they called it. */
  function Reply(s: State, data: seq<byte>, a: Answer): (int, Errno) {
    (if s.pending == [] && a == Again then -1 else |data|,
     if s.pending == [] && Sent(s.open, a, |data|) < |data| && !s.registered then ENOENT else NoError)
  }

  /** A call that returns gives the number of bytes it was passed; -1 only if nothing was buffered and the
      kernel had no room. The error is ENOENT if it left bytes in an empty buffer and the descriptor is not
      registered. What the kernel took is on the wire. */
  lemma ReplyMeans(s: State, data: seq<byte>, a: Answer)
    requires !Accept(s, data, a).held
    ensures var t := Accept(s, data, a);
            && Reply(s, data, a).0 == (if s.pending == [] && a == Again then -1 else |data|)
            && Reply(s, data, a).1 == (if s.pending == [] && t.pending != [] && !s.registered then ENOENT else NoError)
            && t.wire == s.wire + if s.pending == [] && a.Takes? then data[..Min(a.room + 1, |data|)] else []
  {
    assert s.wire + [] == s.wire;
  }

  /** The bytes WriteFlush offers: some of those pending. */
  function Offer(s: State, offered: nat): (k: nat)
    ensures k <= |s.pending| && (k == 0 <==> s.pending == [])
  {
    Max(Min(offered, |s.pending|), Min(1, |s.pending|))
  }

  /** n pending bytes go to the kernel. */
  function Moved(s: State, n: nat): State
    requires n <= |s.pending|
  {
    s.(wire := s.wire + s.pending[..n], pending := s.pending[n..])
  }

  lemma MovedNone(s: State)
    ensures Moved(s, 0) == s
  {
  }

  lemma MovedRest(s: State, n: nat)
    requires n <= |s.pending|
    ensures Moved(s, n).wire + Moved(s, n).pending == s.wire + s.pending
  {
    assert s.pending[..n] + s.pending[n..] == s.pending;
  }

  /** n bytes went to the kernel, in some number of writes. */
  ghost predicate SentSome(s: State, t: State, n: nat) {
    && n <= |s.pending| && t == s.(wire := t.wire, pending := t.pending)
    && t.wire + t.pending == s.wire + s.pending && |t.pending| == |s.pending| - n
  }

  lemma SentMore(s: State, t: State, n: nat, m: nat, u: State)
    requires SentSome(s, t, n) && m <= |t.pending| && u == Moved(t, m)
    ensures SentSome(s, u, n + m)
  {
    MovedRest(t, m);
  }

  lemma SentIs(s: State, t: State, n: nat)
    requires SentSome(s, t, n)
    ensures t == Moved(s, n)
  {
    var all := s.wire + s.pending;
    assert t.wire == all[..|t.wire|] && t.pending == all[|t.wire|..];
    assert all[|s.wire| + n..] == s.pending[n..] && all[..|s.wire| + n] == s.wire + s.pending[..n];
  }

  function Flush(s: State, offered: nat, a: Answer): State {
    var n := Sent(s.open, a, Offer(s, offered));
    if s.held || n <= 0 then s
    else Moved(s, n).(interest := s.interest && n < |s.pending|)
  }

  lemma FlushIs(s: State, offered: nat, a: Answer, n: int)
    requires !s.held && offered == Offer(s, offered) && n == Sent(s.open, a, offered)
    ensures Flush(s, offered, a) ==
              var t := Moved(s, Max(n, 0));
              if n > 0 && t.pending == [] then t.(interest := false) else t
  {
    MovedNone(s);
  }

  /** With room for room + 1 bytes the kernel takes so many of the bytes offered, from the front. */
  lemma FlushTakes(s: State, offered: nat, room: nat)
    requires !s.held && s.open
    ensures var t, k := Flush(s, offered, Takes(room)), Min(room + 1, Offer(s, offered));
            t.wire == s.wire + s.pending[..k] && t.pending == s.pending[k..]
  {
    assert s.wire + s.pending[..0] == s.wire;
  }

  /** The drain loop of Close, when the kernel took `taken` of the pending bytes before it answered an
      error */
  function Drain(s: State, taken: nat): State {
    if s.held then s
    else Moved(s, if s.open then Min(taken, |s.pending|) else 0).(drained := s.drained + 1)
  }

  lemma DrainIs(s: State, taken: nat)
    requires !s.held && taken <= |s.pending| && (!s.open ==> taken == 0)
    ensures Drain(s, taken) == Moved(s, taken).(drained := s.drained + 1)
  {
  }

  function Delete(s: State): State
    requires s.drained > 0
  {
    s.(registered := false, interest := false, drained := s.drained - 1, deleted := s.deleted + 1)
  }

  function CloseFd(s: State): State
    requires s.deleted > 0
  {
    s.(open := false, deleted := s.deleted - 1, shut := s.shut + 1)
  }

  function Release(s: State): State
    requires s.shut > 0
  {
    s.(lost := s.lost + s.pending, pending := [], shut := s.shut - 1)
  }

  /** The parts of a Close, with nothing in between: taken bytes are sent and the others lost. */
  lemma CloseMeans(s: State, taken: nat)
    requires !s.held && taken <= |s.pending| && (!s.open ==> taken == 0)
    ensures var t := Release(CloseFd(Delete(Drain(s, taken))));
            && !t.open && !t.registered && !t.interest && t.pending == []
            && t.wire == s.wire + s.pending[..taken] && t.lost == s.lost + s.pending[taken..]
  {
    DrainIs(s, taken);
  }

  datatype Event =
    | DoWrite(data: seq<byte>, a: Answer)
    | DoWritev(bs: seq<seq<byte>>, a: Answer)
    | DoFlush(offered: nat, a: Answer)
    | DoDrain(taken: nat) // Close: the drain loop, with the lock
    | DoDelete            // Close: netpoll.Delete
    | DoCloseFd           // Close: unix.Close
    | DoRelease           // Close: release, with the lock

  function Step(s: State, e: Event): State {
    match e
    case DoWrite(data, a) => Accept(s, data, a)
    case DoWritev(bs, a) => Accept(s, Flatten(bs), VectorAnswer(|bs|, a))
    case DoFlush(offered, a) => Flush(s, offered, a)
    case DoDrain(taken) => Drain(s, taken)
    case DoDelete => if s.drained == 0 then s else Delete(s)
    case DoCloseFd => if s.deleted == 0 then s else CloseFd(s)
    case DoRelease => if s.held || s.shut == 0 then s else Release(s)
  }

  function Run(s: State, es: seq<Event>): State
    decreases |es|
  {
    if es == [] then s else Run(Step(s, es[0]), es[1..])
  }

  // ---- what callers are promised ----

  /** The data a call passes. */
  function Data(e: Event): seq<byte> {
    match e
    case DoWrite(data, _) => data
    case DoWritev(bs, _) => Flatten(bs)
    case _ => []
  }

  /** The call finds the lock free and nothing buffered, and its write fails or writes nothing: it calls
      Close, which waits for the lock it holds. */
  predicate Wedges(s: State, e: Event) {
    !s.held && s.pending == [] &&
    match e
    case DoWrite(data, a) => !s.open || a == Fatal || data == []
    case DoWritev(bs, a) => !s.open || a == Fatal || |bs| > 1024 || Flatten(bs) == []
    case _ => false
  }

  /** The call takes the lock, if it is a call: there is no release without a Close that has got there. */
  predicate Locks(s: State, e: Event) {
    match e
    case DoDelete => false
    case DoCloseFd => false
    case DoRelease => s.shut > 0
    case _ => true
  }

  /** The call never returns. */
  predicate Hangs(s: State, e: Event) {
    Wedges(s, e) || (s.held && Locks(s, e))
  }

  /** The data of all the calls of a run that returned, in order. */
  function Accepted(s: State, es: seq<Event>): seq<byte>
    decreases |es|
  {
    if es == [] then [] else (if Hangs(s, es[0]) then [] else Data(es[0])) + Accepted(Step(s, es[0]), es[1..])
  }

  /** While the descriptor is registered it is for write events if bytes are buffered; and not without,
      unless a Close has just sent them. */
  ghost predicate Inv(s: State) {
    && (s.registered && s.pending != [] ==> s.interest)
    && (s.interest ==> s.registered && (s.pending != [] || s.drained > 0))
    && (s.deleted > 0 || !s.open ==> !s.registered)
    && (s.shut > 0 ==> !s.open)
    && (s.lost != [] ==> !s.open && s.pending == [])
  }

  /** One step keeps every byte, in order, and the registration right; it takes nothing back. */
  lemma StepKeeps(s: State, e: Event)
    requires Inv(s)
    ensures Inv(Step(s, e)) && Holds(s, Step(s, e), if Hangs(s, e) then [] else Data(e))
    ensures Step(s, e).held <==> s.held || Wedges(s, e)
  {
    match e
    case DoWrite(data, a) => AcceptKeeps(s, data, a);
    case DoWritev(bs, a) => AcceptKeeps(s, Flatten(bs), VectorAnswer(|bs|, a));
    case DoFlush(offered, a) => FlushKeeps(s, offered, a);
    case DoDrain(taken) => DrainKeeps(s, taken);
    case DoDelete => Kept(s, Step(s, e));
    case DoCloseFd => Kept(s, Step(s, e));
    case DoRelease => ReleaseKeeps(s);
  }

  ghost predicate Holds(s: State, s': State, more: seq<byte>) {
    s.wire <= s'.wire && s'.wire + s'.lost + s'.pending == s.wire + s.lost + s.pending + more
  }

  lemma Kept(s: State, s': State)
    requires s'.wire == s.wire && s'.lost == s.lost && s'.pending == s.pending
    ensures Holds(s, s', [])
  {
  }

  lemma AcceptKeeps(s: State, data: seq<byte>, a: Answer)
    requires Inv(s)
    ensures var s' := Accept(s, data, a);
            Inv(s') && Holds(s, s', if s'.held then [] else data)
    ensures Accept(s, data, a).held <==>
              s.held || (s.pending == [] && (!s.open || a == Fatal || data == []))
  {
    var n := Sent(s.open, a, |data|);
    if s.held {
      Kept(s, s);
    } else if s.pending == [] && n > 0 {
      SplitHolds(s, Accept(s, data, a), data, n);
    } else if s.pending == [] && ErrnoOf(s.open, a, |data|) != EAGAIN {
      Kept(s, Accept(s, data, a));
    } else {
      AppendHolds(s, Accept(s, data, a), data);
    }
  }

  lemma SplitHolds(s: State, s': State, data: seq<byte>, n: nat)
    requires n <= |data| && s.pending == [] && s.lost == s'.lost == []
    requires s'.wire == s.wire + data[..n] && s'.pending == data[n..]
    ensures Holds(s, s', data)
  {
    assert data[..n] + data[n..] == data;
  }

  lemma AppendHolds(s: State, s': State, data: seq<byte>)
    requires s'.wire == s.wire && s'.lost == s.lost && s'.pending == s.pending + data
    ensures Holds(s, s', data)
  {
    Associate(s.wire + s.lost, s.pending, data);
  }

  lemma MovedHolds(s: State, n: nat)
    requires n <= |s.pending| && s.lost == []
    ensures Holds(s, Moved(s, n), [])
  {
    assert s.pending[..n] + s.pending[n..] == s.pending;
  }

  lemma FlushKeeps(s: State, offered: nat, a: Answer)
    requires Inv(s)
    ensures var s' := Flush(s, offered, a);
            Inv(s') && Holds(s, s', []) && s'.held == s.held
  {
    var n := Sent(s.open, a, Offer(s, offered));
    if s.held || n <= 0 {
      Kept(s, s);
    } else {
      MovedHolds(s, n);
    }
  }

  lemma DrainKeeps(s: State, taken: nat)
    requires Inv(s)
    ensures var s' := Drain(s, taken);
            Inv(s') && Holds(s, s', []) && s'.held == s.held
  {
    if s.held {
      Kept(s, s);
    } else if s.open {
      MovedHolds(s, Min(taken, |s.pending|));
    } else {
      MovedNone(s);
      Kept(s, Drain(s, taken));
    }
  }

  lemma ReleaseKeeps(s: State)
    requires Inv(s)
    ensures var s' := Step(s, DoRelease);
            Inv(s') && Holds(s, s', []) && s'.held == s.held
  {
    if s.held || s.shut == 0 {
      Kept(s, s);
    } else {
      Associate(s.wire, s.lost, s.pending);
      assert s.wire + (s.lost + s.pending) + [] == s.wire + s.lost + s.pending + [];
    }
  }

  // ---- whole runs ----

  lemma {:induction false} RunSnoc(s: State, es: seq<Event>, e: Event)
    ensures Run(s, es + [e]) == Step(Run(s, es), e)
    decreases |es|
  {
    var all := es + [e];
    if es == [] {
      assert all[0] == e && |all[1..]| == 0;
    } else {
      assert all[0] == es[0] && all[1..] == es[1..] + [e];
      RunSnoc(Step(s, es[0]), es[1..], e);
    }
  }

  lemma RunOne(s: State, e: Event)
    ensures Run(s, [e]) == Step(s, e)
  {
    assert [] + [e] == [e];
    RunSnoc(s, [], e);
  }

  /** Over every run: the bytes the kernel took, what was dropped on closing and what is still buffered
      are, in this order, exactly the data of the calls that returned; the kernel's bytes only grow. */
  lemma {:induction false} StreamIsConserved(s: State, es: seq<Event>)
    requires Inv(s)
    ensures Inv(Run(s, es)) && Holds(s, Run(s, es), Accepted(s, es))
    decreases |es|
  {
    if es == [] {
      Kept(s, s);
    } else {
      var s1 := Step(s, es[0]);
      StepKeeps(s, es[0]);
      StreamIsConserved(s1, es[1..]);
      var first := if Hangs(s, es[0]) then [] else Data(es[0]);
      Associate(s.wire + s.lost + s.pending, first, Accepted(s1, es[1..]));
    }
  }

  /** The same for a new connection: nothing is lost, duplicated or reordered while it is open; and until
      a Close begins, the descriptor is registered for write events exactly when bytes are buffered. */
  lemma BytesArriveInOrder(es: seq<Event>)
    ensures var s := Run(FRESH, es);
            && s.wire + s.lost + s.pending == Accepted(FRESH, es)
            && (s.open ==> s.lost == [])
            && (s.registered && s.drained == 0 ==> (s.interest <==> s.pending != []))
            && (s.registered && s.pending != [] ==> s.interest)
  {
    StreamIsConserved(FRESH, es);
    var data := Accepted(FRESH, es);
    assert FRESH.wire + FRESH.lost + FRESH.pending + data == data;
  }

  /** Once a call holds the lock for ever no call that takes it returns or changes anything, and no byte
      moves: also a Close that has closed the descriptor never gets to its release. */
  lemma {:induction false} HeldForEver(s: State, es: seq<Event>)
    requires s.held
    ensures var t := Run(s, es);
            && t.held && t.wire == s.wire && t.pending == s.pending && t.lost == s.lost && t.shut >= s.shut
            && forall e :: Locks(t, e) ==> Hangs(t, e) && Step(t, e) == t
    decreases |es|
  {
    if es == [] {
    } else {
      HeldForEver(Step(s, es[0]), es[1..]);
    }
  }

  lemma RunLater(s: State, es: seq<Event>, k: nat)
    requires 0 < k <= |es|
    ensures Run(s, es[..k]) == Run(Step(s, es[0]), es[1..][..k - 1])
  {
    assert es[..k][0] == es[0] && es[..k][1..] == es[1..][..k - 1];
  }

  /** The lock is held for ever exactly when some call of the run wedged. */
  lemma {:induction false} HeldIffACallHung(s: State, es: seq<Event>)
    requires Inv(s) && !s.held
    ensures Run(s, es).held <==> exists k :: 0 <= k < |es| && Wedges(Run(s, es[..k]), es[k])
    decreases |es|
  {
    if es == [] {
    } else {
      var s1 := Step(s, es[0]);
      StepKeeps(s, es[0]);
      assert es[..0] == [];
      if s1.held {
        HeldForEver(s1, es[1..]);
        assert Wedges(Run(s, es[..0]), es[0]);
      } else {
        HeldIffACallHung(s1, es[1..]);
        forall k | 0 < k < |es|
          ensures Run(s, es[..k]) == Run(s1, es[1..][..k - 1]) && es[k] == es[1..][k - 1]
        {
          RunLater(s, es, k);
        }
        if j :| 0 <= j < |es| - 1 && Wedges(Run(s1, es[1..][..j]), es[1..][j]) {
          assert Wedges(Run(s, es[..j + 1]), es[j + 1]);
        }
      }
    }
  }

  /** A Close that has closed the descriptor hangs in its release exactly when a call wedged before it
      got there. */
  lemma ReleaseHangsIffACallHung(s: State, es: seq<Event>)
    requires Inv(s) && !s.held && Run(s, es).shut > 0
    ensures Hangs(Run(s, es), DoRelease) <==> exists k :: 0 <= k < |es| && Wedges(Run(s, es[..k]), es[k])
  {
    HeldIffACallHung(s, es);
  }

  ghost predicate TakingFlushes(es: seq<Event>) {
    forall e :: e in es ==> e.DoFlush? && e.a.Takes?
  }

  /** Buffered bytes are never stranded: as many write events as there are bytes, each with room for
      at least one, send all of them and take the descriptor off write events. */
  lemma {:induction false} FlushesDrain(s: State, es: seq<Event>)
    requires Inv(s) && s.open && !s.held && TakingFlushes(es) && |es| >= |s.pending|
    ensures Run(s, es) ==
              s.(wire := s.wire + s.pending, pending := [], interest := s.interest && s.pending == [])
    decreases |es|
  {
    if es == [] {
      assert s.wire + s.pending == s.wire;
    } else {
      var s1 := Step(s, es[0]);
      FlushKeeps(s, es[0].offered, es[0].a);
      FlushesDrain(s1, es[1..]);
      if s.pending != [] {
        var n := Sent(true, es[0].a, Offer(s, es[0].offered));
        MovedRest(s, n);
      }
    }
  }

  /** The error of WriteFlush, for which the event loop closes the connection. */
  function FlushError(s: State, offered: nat, a: Answer): Errno {
    var n := Sent(s.open, a, Offer(s, offered));
    if n > 0 then NoError
    else if n == 0 then ECONNRESET
    else if ErrnoOf(s.open, a, Offer(s, offered)) == EAGAIN then NoError
    else EFATAL
  }

  /** It is the kernel's when the write meets one, as on a closed descriptor, and ECONNRESET when there was
      nothing to write. */
  lemma FlushErrors(s: State, offered: nat, a: Answer)
    requires offered == Offer(s, offered)
    ensures FlushError(s, offered, a) ==
              if !s.open || a == Fatal then EFATAL else if s.pending == [] then ECONNRESET else NoError
  {
  }

  /** While the descriptor is registered, and the kernel reports no error, WriteFlush fails exactly when
      nothing is buffered. A write event finds nothing buffered only between a Close's drain loop and the
      poller's Delete; so until a Close begins it never makes WriteFlush fail, and any other event does. */
  lemma WriteEventsKeepOpen(es: seq<Event>, offered: nat, a: Answer)
    requires a != Fatal
    ensures var s := Run(FRESH, es);
            && (s.registered ==> (FlushError(s, offered, a) != NoError <==> s.pending == []))
            && (s.interest ==> (FlushError(s, offered, a) != NoError <==> s.pending == []))
            && (s.interest && s.pending == [] ==> s.drained > 0)
            && (s.registered && s.drained == 0 ==> (FlushError(s, offered, a) != NoError <==> !s.interest))
  {
    StreamIsConserved(FRESH, es);
  }

  // ---- runs that fail ----

  /** The first write to a new connection hangs exactly if it is of no data, or of more than 1024 slices, or
      meets an error. */
  lemma WritesThatHang(data: seq<byte>, bs: seq<seq<byte>>, a: Answer)
    ensures Run(FRESH, [DoWrite(data, a)]).held <==> data == [] || a == Fatal
    ensures Run(FRESH, [DoWritev(bs, a)]).held <==> Flatten(bs) == [] || a == Fatal || |bs| > 1024
  {
    RunOne(FRESH, DoWrite(data, a));
    RunOne(FRESH, DoWritev(bs, a));
    StepKeeps(FRESH, DoWrite(data, a));
    StepKeeps(FRESH, DoWritev(bs, a));
  }

  /** A Write between a Close's close of the descriptor and its release: both hang, although the lock was
      free when they began. */
  lemma WriteWhileClosingHangs(data: seq<byte>, a: Answer)
    ensures var s := Run(FRESH, [DoDrain(0), DoDelete, DoCloseFd]);
            var t := Step(s, DoWrite(data, a));
            !s.held && Hangs(s, DoWrite(data, a)) && Hangs(t, DoRelease)
  {
    RunSnoc(FRESH, [], DoDrain(0));
    RunSnoc(FRESH, [DoDrain(0)], DoDelete);
    RunSnoc(FRESH, [DoDrain(0), DoDelete], DoCloseFd);
    assert [] + [DoDrain(0)] == [DoDrain(0)];
    assert [DoDrain(0)] + [DoDelete] == [DoDrain(0), DoDelete];
    assert [DoDrain(0), DoDelete] + [DoCloseFd] == [DoDrain(0), DoDelete, DoCloseFd];
  }

  /** A write that the kernel has no room for is buffered whole, and reports -1 without an error. */
  lemma AcceptedButMinusOne(data: seq<byte>)
    requires data != []
    ensures Run(FRESH, [DoWrite(data, Again)]) == FRESH.(pending := data, interest := true)
    ensures Reply(FRESH, data, Again) == (-1, NoError)
  {
    RunSnoc(FRESH, [], DoWrite(data, Again));
    assert [] + [DoWrite(data, Again)] == [DoWrite(data, Again)];
  }

  /** After a write the kernel had no room for, and a drain loop that sent n bytes of it, and before the
      descriptor is off the poller, a write event still comes; it makes WriteFlush fail exactly when the
      loop sent all. */
  lemma WriteEventWhileClosing(data: seq<byte>, n: nat, offered: nat, a: Answer)
    requires data != [] && a != Fatal
    ensures var s := Run(FRESH, [DoWrite(data, Again), DoDrain(n)]);
            s.interest && (FlushError(s, offered, a) == if n >= |data| then ECONNRESET else NoError)
  {
    AcceptedButMinusOne(data);
    RunSnoc(FRESH, [DoWrite(data, Again)], DoDrain(n));
    assert [DoWrite(data, Again)] + [DoDrain(n)] == [DoWrite(data, Again), DoDrain(n)];
  }
}
