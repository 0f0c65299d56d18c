/** connection_unix.go: the outbound half of a connection, over the elastic buffer, refining Outbound. */
module Connection {
  import opened Bytes
  import opened Outbound
  import opened PowerOfTwo
  import Elastic

  datatype Result = Hung | Returned(n: int, err: Errno)

  /** The first k slices of a peek, k > 0 if it has any: a write of them takes the oldest bytes. */
  lemma FirstSlices(bs: seq<seq<byte>>, k: nat, contents: seq<byte>, n: int)
    requires Flatten(bs) <= contents && k <= |bs| && (bs != [] ==> k > 0 && bs[0] != [])
    requires contents != [] ==> bs != []
    requires n <= |Flatten(bs[..k])|
    ensures |Flatten(bs[..k])| <= |contents| && (contents != [] ==> Flatten(bs[..k]) != [])
    ensures Flatten(bs[..k])[..Max(n, 0)] == contents[..Max(n, 0)]
  {
    FlattenSplit(bs, k);
    if bs != [] {
      assert bs[..k][0] == bs[0];
    }
  }

  lemma TrimFrom(bs: seq<seq<byte>>, i: nat, sent: nat)
    requires i < |bs| && sent <= |Flatten(bs[i..])|
    ensures sent >= |bs[i]| ==>
              sent - |bs[i]| <= |Flatten(bs[i + 1..])| &&
              Flatten(bs[i..])[sent..] == Flatten(bs[i + 1..])[sent - |bs[i]|..]
    ensures sent < |bs[i]| ==> Flatten(bs[i := bs[i][sent..]][i..]) == Flatten(bs[i..])[sent..]
  {
    assert bs[i..][0] == bs[i] && bs[i..][1..] == bs[i + 1..];
    if sent < |bs[i]| {
      var bs' := bs[i := bs[i][sent..]];
      assert bs'[i..][0] == bs[i][sent..] && bs'[i..][1..] == bs[i + 1..];
    }
  }

  /** writev's loop: drops the first sent bytes of bs in place, and gives the first slice left. */
  method Trim(bs: array<seq<byte>>, sent: nat) returns (pos: nat)
    requires sent < |Flatten(bs[..])|
    modifies bs
    ensures pos < bs.Length && Flatten(bs[pos..]) == Flatten(old(bs[..]))[sent..]
    ensures |bs[pos]| <= |old(bs[pos])| && forall i :: 0 <= i < bs.Length && i != pos ==> bs[i] == old(bs[i])
  {
    var left: nat := sent;
    pos := 0;
    for i := 0 to bs.Length
      invariant bs[..] == old(bs[..])
      invariant left < |Flatten(bs[i..])| && Flatten(bs[i..])[left..] == Flatten(bs[..])[sent..]
    {
      TrimFrom(bs[..], i, left);
      if left < |bs[i]| {
        bs[i] := bs[i][left..];
        pos := i;
        assert bs[..] == old(bs[..])[pos := old(bs[..])[pos][left..]];
        return;
      }
      left := left - |bs[i]|;
    }
  }

  /** Bytes are left over only if the descriptor is closed, or a write failed: the first to fail came after at
      most as many others as bytes were taken. */
  ghost predicate CutOff(kernel: nat -> Answer, open: bool, taken: nat, all: nat) {
    taken < all && open ==>
      exists k: nat :: k <= taken && !kernel(k).Takes? && forall j :: 0 <= j < k ==> kernel(j).Takes?
  }

  class Conn {
    const outboundBuffer: Elastic.Buffer
    var interest: bool   // pollAttachment is registered for write events
    var registered: bool // pollAttachment is registered
    var open: bool       // sysfd is an open descriptor
    var held: bool       // writeMtx is never unlocked
    ghost var view: State // with what the kernel took, and where the Close calls are
    ghost var Repr: set<object>

    ghost predicate Valid()
      reads this, Repr
    {
      && this in Repr && outboundBuffer in Repr && outboundBuffer.Repr <= Repr && this !in outboundBuffer.Repr
      && outboundBuffer.Valid()
      && view.pending == outboundBuffer.Contents && view.interest == interest && view.registered == registered
      && view.open == open && view.held == held
    }

    /** newTCPConn, and netpoll.AddRead */
    constructor (writeBufferCap: int)
      ensures Valid() && fresh(Repr) && view == FRESH
      ensures view.wire == view.pending == [] && registered && open && !interest && !held
      ensures outboundBuffer.maxStaticBytes == Max(writeBufferCap, 0)
    {
      outboundBuffer := new Elastic.Buffer(0);
      interest, registered, open, held := false, true, true, false;
      view := FRESH;
      new;
      outboundBuffer.Reset(writeBufferCap);
      Repr := {this} + outboundBuffer.Repr;
    }

    /** unix.Write */
    method SysWrite(data: seq<byte>, a: Answer) returns (n: int, err: Errno)
      modifies this`view
      ensures n == Sent(open, a, |data|) && err == ErrnoOf(open, a, |data|)
      ensures view == old(view).(wire := old(view).wire + data[..Max(n, 0)])
    {
      n, err := Sent(open, a, |data|), ErrnoOf(open, a, |data|);
      view := view.(wire := view.wire + data[..Max(n, 0)]);
    }

    /** unix.Writev */
    method SysWritev(bs: seq<seq<byte>>, a: Answer) returns (n: int, err: Errno)
      modifies this`view
      ensures n == Sent(open, VectorAnswer(|bs|, a), |Flatten(bs)|)
      ensures err == ErrnoOf(open, VectorAnswer(|bs|, a), |Flatten(bs)|)
      ensures view == old(view).(wire := old(view).wire + Flatten(bs)[..Max(n, 0)])
    {
      n, err := SysWrite(Flatten(bs), VectorAnswer(|bs|, a));
    }

    /** netpoll.ModReadWrite */
    method ModReadWrite() returns (err: Errno)
      requires Valid()
      modifies this`interest, this`view
      ensures Valid() && view == old(view).(interest := registered || old(interest))
      ensures err == if registered then NoError else ENOENT
    {
      interest := registered || interest;
      view := view.(interest := interest);
      err := if registered then NoError else ENOENT;
    }

    /** netpoll.ModRead */
    method ModRead()
      requires Valid()
      modifies this`interest, this`view
      ensures Valid() && view == old(view).(interest := false)
    {
      interest := false;
      view := view.(interest := false);
    }

    /** Close, called by a method that holds the lock Close waits for. */
    method Hang()
      requires Valid()
      modifies this`held, this`view
      ensures Valid() && view == old(view).(held := true)
    {
      held := true;
      view := view.(held := true);
    }

    /** outboundBuffer.Write */
    method Buffer(data: seq<byte>)
      requires Valid() && |data| <= MAXINT_HEAD_BIT
      modifies Repr
      ensures Valid() && fresh(Repr - old(Repr))
      ensures view == old(view).(pending := old(view).pending + data)
    {
      var _ := outboundBuffer.Write(data);
      view := view.(pending := outboundBuffer.Contents);
      Repr := Repr + outboundBuffer.Repr;
    }

    /** outboundBuffer.Write, and netpoll.ModReadWrite */
    method BufferAndArm(data: seq<byte>) returns (err: Errno)
      requires Valid() && |data| <= MAXINT_HEAD_BIT
      modifies Repr
      ensures Valid() && fresh(Repr - old(Repr))
      ensures view == old(view).(
                pending := old(view).pending + data, interest := old(registered) || old(interest))
      ensures err == if old(registered) then NoError else ENOENT
    {
      Buffer(data);
      err := ModReadWrite();
    }

    method Write(data: seq<byte>, a: Answer) returns (res: Result)
      requires Valid() && |data| <= MAXINT_HEAD_BIT
      modifies Repr
      ensures Valid() && fresh(Repr - old(Repr))
      ensures view == Accept(old(view), data, a)
      ensures res.Hung? <==> held
      ensures res.Returned? ==> res.n == if old(view).pending == [] && a == Again then -1 else |data|
      ensures res.Returned? ==>
                res.err == if old(view).pending == [] && view.pending != [] && !old(registered) then ENOENT else NoError
      ensures res.Returned? ==>
                view.wire == old(view).wire +
                  if old(view).pending == [] && a.Takes? then data[..Min(a.room + 1, |data|)] else []
    {
      if held {
        return Hung;
      }
      ghost var s := view;
      if !outboundBuffer.Empty() {
        Buffer(data);
        res := Returned(|data|, NoError);
      } else {
        res := WriteDirect(data, a);
      }
      if !held { ReplyMeans(s, data, a); }
    }

    /** The rest of Write, when nothing is buffered. */
    method WriteDirect(data: seq<byte>, a: Answer) returns (res: Result)
      requires Valid() && |data| <= MAXINT_HEAD_BIT && !held && outboundBuffer.Contents == []
      modifies Repr
      ensures Valid() && fresh(Repr - old(Repr))
      ensures view == Accept(old(view), data, a)
      ensures res.Hung? <==> held
      ensures res.Returned? ==> (res.n, res.err) == Reply(old(view), data, a)
    {
      var n := |data|;
      var sent, err := SysWrite(data, a);
      if sent < 0 && err == EAGAIN {
        err := BufferAndArm(data);
        AcceptNone(old(view), data, a, view);
        res := Returned(sent, err);
      } else if sent <= 0 {
        Hang();
        AcceptNone(old(view), data, a, view);
        res := Hung;
      } else {
        if sent < n {
          err := BufferAndArm(data[sent..]);
        }
        AcceptSent(old(view), data, a, sent, view);
        res := Returned(n, err);
      }
    }

    /** outboundBuffer.Writev */
    method Bufferv(bs: seq<seq<byte>>)
      requires Valid() && forall i :: 0 <= i < |bs| ==> |bs[i]| <= MAXINT_HEAD_BIT
      modifies Repr
      ensures Valid() && fresh(Repr - old(Repr))
      ensures view == old(view).(pending := old(view).pending + Flatten(bs))
    {
      var _ := outboundBuffer.Writev(bs);
      view := view.(pending := outboundBuffer.Contents);
      Repr := Repr + outboundBuffer.Repr;
    }

    /** outboundBuffer.Writev, and netpoll.ModReadWrite */
    method BuffervAndArm(bs: seq<seq<byte>>) returns (err: Errno)
      requires Valid() && forall i :: 0 <= i < |bs| ==> |bs[i]| <= MAXINT_HEAD_BIT
      modifies Repr
      ensures Valid() && fresh(Repr - old(Repr))
      ensures view == old(view).(
                pending := old(view).pending + Flatten(bs), interest := old(registered) || old(interest))
      ensures err == if old(registered) then NoError else ENOENT
    {
      Bufferv(bs);
      err := ModReadWrite();
    }

    /** writev. The slice that was sent in part is cut in the caller's array. */
    method Writev(bs: array<seq<byte>>, a: Answer) returns (res: Result)
      requires Valid() && bs !in Repr && forall i :: 0 <= i < bs.Length ==> |bs[i]| <= MAXINT_HEAD_BIT
      modifies Repr, bs
      ensures Valid() && fresh(Repr - old(Repr))
      ensures view == Accept(old(view), Flatten(old(bs[..])), VectorAnswer(bs.Length, a))
      ensures res.Hung? <==> held
      ensures res.Returned? ==>
                res.n == if old(view).pending == [] && a == Again then -1 else |Flatten(old(bs[..]))|
      ensures res.Returned? ==>
                res.err == if old(view).pending == [] && view.pending != [] && !old(registered) then ENOENT else NoError
    {
      if held {
        return Hung;
      }
      ghost var s, data := view, Flatten(bs[..]);
      if !outboundBuffer.Empty() {
        Bufferv(bs[..]);
        res := Returned(|Flatten(bs[..])|, NoError);
      } else {
        res := WritevDirect(bs, a);
      }
      if !held { ReplyMeans(s, data, VectorAnswer(bs.Length, a)); }
    }

    /** The rest of writev, when nothing is buffered. */
    method WritevDirect(bs: array<seq<byte>>, a: Answer) returns (res: Result)
      requires Valid() && bs !in Repr && forall i :: 0 <= i < bs.Length ==> |bs[i]| <= MAXINT_HEAD_BIT
      requires !held && outboundBuffer.Contents == []
      modifies Repr, bs
      ensures Valid() && fresh(Repr - old(Repr))
      ensures view == Accept(old(view), Flatten(old(bs[..])), VectorAnswer(bs.Length, a))
      ensures res.Hung? <==> held
      ensures res.Returned? ==>
                (res.n, res.err) == Reply(old(view), Flatten(old(bs[..])), VectorAnswer(bs.Length, a))
    {
      ghost var data := Flatten(bs[..]);
      var n := |Flatten(bs[..])|;
      var sent, err := SysWritev(bs[..], a);
      if sent < 0 && err == EAGAIN {
        err := BuffervAndArm(bs[..]);
        AcceptNone(old(view), data, VectorAnswer(bs.Length, a), view);
        res := Returned(sent, err);
      } else if sent <= 0 {
        Hang();
        AcceptNone(old(view), data, VectorAnswer(bs.Length, a), view);
        res := Hung;
      } else {
        err := BufferRest(bs, sent);
        AcceptSent(old(view), data, VectorAnswer(bs.Length, a), sent, view);
        res := Returned(n, err);
      }
    }

    /** The end of writev: all but the first sent bytes are left over, if there are more. */
    method BufferRest(bs: array<seq<byte>>, sent: nat) returns (err: Errno)
      requires Valid() && bs !in Repr && forall i :: 0 <= i < bs.Length ==> |bs[i]| <= MAXINT_HEAD_BIT
      requires sent <= |Flatten(bs[..])|
      modifies Repr, bs
      ensures Valid() && fresh(Repr - old(Repr))
      ensures sent < old(|Flatten(bs[..])|) ==>
                view == old(view).(pending := old(view).pending + Flatten(old(bs[..]))[sent..],
                                   interest := old(registered) || old(interest))
      ensures sent == old(|Flatten(bs[..])|) ==> view == old(view)
      ensures err == if sent == old(|Flatten(bs[..])|) || old(registered) then NoError else ENOENT
    {
      err := NoError;
      if sent < |Flatten(bs[..])| {
        var pos := Trim(bs, sent);
        err := BuffervAndArm(bs[pos..]);
      }
    }

    /** What WriteFlush and Close hand to the kernel: the first slices of what is buffered. */
    method Send(iov: seq<seq<byte>>, a: Answer) returns (n: int, err: Errno, ghost offered: nat)
      requires view.pending == outboundBuffer.Contents && Flatten(iov) <= outboundBuffer.Contents
      requires outboundBuffer.Contents != [] ==> iov != [] && iov[0] != []
      requires outboundBuffer.Contents == [] ==> iov == []
      modifies this`view
      ensures offered == Offer(old(view), offered) && (|iov| <= 1024 ==> offered == |Flatten(iov)|)
      ensures n == Sent(open, a, offered) && err == ErrnoOf(open, a, offered)
      ensures view == old(view).(wire := old(view).wire + old(view).pending[..Max(n, 0)])
    {
      var k := Min(|iov|, IOV_MAX);
      assert |iov| <= 1024 ==> iov[..k] == iov;
      offered := |Flatten(iov[..k])|;
      FirstSlices(iov, k, outboundBuffer.Contents, Sent(open, a, offered));
      if |iov| > 1 {
        n, err := SysWritev(iov[..k], a);
      } else if |iov| <= 0 {
        n, err := SysWrite([], a);
      } else {
        FlattenOne(iov[0]);
        assert iov[..1] == [iov[0]];
        n, err := SysWrite(iov[0], a);
      }
    }

    /** A write of those slices, and outboundBuffer.Discard of what the kernel took. */
    method SendAndDiscard(iov: seq<seq<byte>>, a: Answer) returns (n: int, err: Errno, ghost offered: nat)
      requires Valid() && Flatten(iov) <= outboundBuffer.Contents
      requires outboundBuffer.Contents != [] ==> iov != [] && iov[0] != []
      requires outboundBuffer.Contents == [] ==> iov == []
      modifies Repr
      ensures Valid() && Repr == old(Repr)
      ensures offered == Offer(old(view), offered) && (|iov| <= 1024 ==> offered == |Flatten(iov)|)
      ensures n == Sent(open, a, offered) && err == ErrnoOf(open, a, offered)
      ensures view == Moved(old(view), Max(n, 0))
    {
      n, err, offered := Send(iov, a);
      if n > 0 {
        var _, _ := outboundBuffer.Discard(n);
        view := view.(pending := outboundBuffer.Contents);
      } else {
        MovedNone(view);
      }
    }

    method WriteFlush(a: Answer) returns (res: Result, ghost offered: nat)
      requires Valid()
      modifies Repr
      ensures Valid() && Repr == old(Repr)
      ensures view == Flush(old(view), offered, a)
      ensures res.Hung? <==> old(held)
      ensures res.Returned? ==> res.err == FlushError(old(view), offered, a)
      ensures res.Returned? ==>
                res.err == if !old(open) || a == Fatal then EFATAL
                           else if old(view).pending == [] then ECONNRESET
                           else NoError
      ensures res.Returned? && old(outboundBuffer.listBuffer.Len()) <= 1022 ==>
                offered >= Min(0x7fff_ffff, |old(view).pending|)
    {
      if held {
        return Hung, 0;
      }
      var n, err;
      ghost var s := view;
      n, err, offered := FlushOnce(a);
      FlushErrors(s, offered, a);
      if n < 0 {
        err := if err == EAGAIN then NoError else err;
      } else if n == 0 {
        err := ECONNRESET;
      }
      res := Returned(n, err);
    }

    /** What WriteFlush does with the lock. */
    method FlushOnce(a: Answer) returns (n: int, err: Errno, ghost offered: nat)
      requires Valid() && !held
      modifies Repr
      ensures Valid() && Repr == old(Repr)
      ensures offered == Offer(old(view), offered)
      ensures old(outboundBuffer.listBuffer.Len()) <= 1022 ==> offered >= Min(0x7fff_ffff, |old(view).pending|)
      ensures n == Sent(old(open), a, offered) && err == ErrnoOf(old(open), a, offered)
      ensures view == Flush(old(view), offered, a)
    {
      ghost var s := view;
      var iov := outboundBuffer.Peek(-1);
      n, err, offered := SendAndDiscard(iov, a);
      FlushIs(s, offered, a, n);
      if n > 0 && outboundBuffer.Empty() {
        ModRead();
      }
    }

    /** Close, with no other call in between. kernel(k) is the answer to its write number k, closed that
        to unix.Close. What is buffered is sent up to the first write that fails, and lost from there on. */
    method Close(kernel: nat -> Answer, closed: Errno) returns (res: Result, ghost taken: nat)
      requires Valid()
      modifies Repr
      ensures Valid() && Repr == old(Repr)
      ensures res == if old(held) then Hung else Returned(0, closed)
      ensures old(held) ==> view == old(view)
      ensures !old(held) ==>
                view == Outbound.Release(Outbound.CloseFd(Outbound.Delete(Outbound.Drain(old(view), taken))))
      ensures !old(held) ==> taken <= |old(view).pending| && CutOff(kernel, old(open), taken, |old(view).pending|)
      ensures !old(held) ==>
                && !open && !registered && !interest && outboundBuffer.Contents == []
                && outboundBuffer.ringBuffer.rb == null
                && view.wire == old(view).wire + old(view).pending[..taken]
                && view.lost == old(view).lost + old(view).pending[taken..]
    {
      if held {
        return Hung, 0;
      }
      ghost var s := view;
      taken := Drain(kernel);
      CloseMeans(s, taken);
      res := Finish(closed);
    }

    /** Server.eventWrite: WriteFlush, and Close if it fails, of which kernel and closed are the answers. So a
        write event closes the connection exactly when its write meets an error, or nothing is buffered. */
    method EventWrite(a: Answer, kernel: nat -> Answer, closed: Errno) returns (res: Result, closes: bool)
      requires Valid()
      modifies Repr
      ensures Valid() && Repr == old(Repr)
      ensures res.Hung? <==> old(held)
      ensures closes <==> !old(held) && (!old(open) || a == Fatal || old(view).pending == [])
      ensures closes ==> !open && !registered && !interest && outboundBuffer.Contents == []
      ensures !closes ==> open == old(open) && registered == old(registered) && view.lost == old(view).lost
    {
      ghost var n;
      closes := false;
      res, n := WriteFlush(a);
      if res.Returned? && res.err != NoError {
        closes := true;
        res, n := Close(kernel, closed);
      }
    }

    /** Close after its drain loop, with no other call in between. */
    method Finish(closed: Errno) returns (res: Result)
      requires Valid() && !held && view.drained > 0
      modifies Repr
      ensures Valid() && Repr == old(Repr) && res == Returned(0, closed) && outboundBuffer.ringBuffer.rb == null
      ensures view == Outbound.Release(Outbound.CloseFd(Outbound.Delete(old(view))))
    {
      Delete();
      CloseFd();
      var _ := Release();
      res := Returned(0, closed);
    }

    /** Close as far as its unlock: the loop writes what is buffered until nothing is left or a write
        fails. */
    method Drain(kernel: nat -> Answer) returns (ghost taken: nat)
      requires Valid() && !held
      modifies Repr
      ensures Valid() && Repr == old(Repr)
      ensures taken <= |old(view).pending| && view == Outbound.Drain(old(view), taken) && (!open ==> taken == 0)
      ensures CutOff(kernel, old(open), taken, |old(view).pending|)
    {
      ghost var s := view;
      taken := DrainLoop(kernel);
      DrainIs(s, taken);
      view := view.(drained := view.drained + 1);
    }

    method DrainLoop(kernel: nat -> Answer) returns (ghost taken: nat)
      requires Valid() && !held
      modifies Repr
      ensures Valid() && Repr == old(Repr)
      ensures taken <= |old(view).pending| && view == Moved(old(view), taken) && (!open ==> taken == 0)
      ensures CutOff(kernel, open, taken, |old(view).pending|)
    {
      taken := 0;
      ghost var s := view;
      var k: nat, ok := 0, true;
      while ok && !outboundBuffer.Empty()
        invariant Valid() && Repr == old(Repr)
        invariant SentSome(s, view, taken) && (!open ==> taken == 0)
        invariant ok ==> 0 <= k <= taken && forall j :: 0 <= j < k ==> kernel(j).Takes?
        invariant !ok ==> CutOff(kernel, open, taken, |s.pending|)
        decreases |s.pending| - taken, ok
      {
        ghost var n, before := 0, view;
        ok, n := DrainOnce(kernel(k));
        SentMore(s, before, taken, n, view);
        taken := taken + n;
        k := k + 1;
      }
      SentIs(s, view, taken);
    }

    /** The body of that loop, false at its break. */
    method DrainOnce(a: Answer) returns (ok: bool, ghost n: nat)
      requires Valid() && view.pending != []
      modifies Repr
      ensures Valid() && Repr == old(Repr)
      ensures n <= |old(view).pending| && view == Moved(old(view), n)
      ensures if ok then n > 0 && open && a.Takes? else n == 0 && !(open && a.Takes?)
    {
      var iov := outboundBuffer.Peek(0);
      var sent, e, _ := SendAndDiscard(iov, a);
      ok, n := e == NoError, Max(sent, 0);
    }

    /** Close: netpoll.Delete */
    method Delete()
      requires Valid() && view.drained > 0
      modifies `registered, `interest, `view
      ensures Valid() && view == Outbound.Delete(old(view))
    {
      registered, interest := false, false;
      view := Outbound.Delete(view);
    }

    /** Close: unix.Close */
    method CloseFd()
      requires Valid() && view.deleted > 0
      modifies `open, `view
      ensures Valid() && view == Outbound.CloseFd(old(view))
    {
      open := false;
      view := Outbound.CloseFd(view);
    }

    /** Close: release */
    method Release() returns (res: Result)
      requires Valid() && view.shut > 0
      modifies Repr
      ensures Valid() && Repr == old(Repr) && view == Step(old(view), DoRelease)
      ensures res.Hung? <==> held
      ensures !held ==> view.pending == [] && outboundBuffer.ringBuffer.rb == null
    {
      if held {
        return Hung;
      }
      outboundBuffer.Release();
      view := Outbound.Release(view);
      res := Returned(0, NoError);
    }
  }
}
