/** connection_unix.go, glibevent.go and engine_unix.go: the inbound half of a connection, and the
    decoder that reads frames off it, refining Framing. */
module Inbound {
  import opened Bytes
  import opened Framing
  import ElasticRing

  datatype Errno = NoError | ErrShortBuffer | ECONNRESET | EFAILED

  const READ_BUFFER_LEN := 1024

  /** What ends the reads of one event: no more data, the peer's end of stream, or an error. */
  datatype End = WouldBlock | EndOfStream | Failed

  class DefaultHead {
    var bodyLen: int32
    var msgId: int32

    constructor ()
      ensures bodyLen == msgId == 0
    {
      bodyLen, msgId := 0, 0;
    }

    method Decode(data: seq<byte>)
      modifies this
      ensures bodyLen == if |data| >= 4 then GetInt32(data[..4]) else old(bodyLen)
      ensures msgId == if |data| >= 8 then GetInt32(data[4..8]) else old(msgId)
      ensures |data| >= 4 ==>
                data[0] as int + 0x100 * data[1] as int + 0x1_0000 * data[2] as int + 0x100_0000 * data[3] as int
                  == bodyLen % 0x1_0000_0000
      ensures |data| >= 8 ==>
                data[4] as int + 0x100 * data[5] as int + 0x1_0000 * data[6] as int + 0x100_0000 * data[7] as int
                  == msgId % 0x1_0000_0000
    {
      if |data| >= 4 {
        bodyLen := GetInt32(data[..4]);
        GetsLittleEndian(data[..4]);
      }
      if |data| >= 8 {
        msgId := GetInt32(data[4..8]);
        GetsLittleEndian(data[4..8]);
      }
    }

    method Encode() returns (data: seq<byte>)
      ensures |data| == 8 && BodyLen(data) == bodyLen && MsgId(data) == msgId
      ensures data[0] as int + 0x100 * data[1] as int + 0x1_0000 * data[2] as int + 0x100_0000 * data[3] as int
              == bodyLen % 0x1_0000_0000
      ensures data[4] as int + 0x100 * data[5] as int + 0x1_0000 * data[6] as int + 0x100_0000 * data[7] as int
              == msgId % 0x1_0000_0000
    {
      data := PutInt32(bodyLen);
      data := data + PutInt32(msgId);
      HeaderRoundTrip(bodyLen, msgId, []);
      assert data + [] == data;
      PutsLittleEndian(bodyLen);
      PutsLittleEndian(msgId);
    }
  }

  class Conn {
    const inboundBuffer: ElasticRing.RingBuffer
    ghost var Repr: set<object>

    ghost predicate Valid()
      reads this, Repr
    {
      && this in Repr && inboundBuffer in Repr && inboundBuffer.Repr <= Repr
      && this !in inboundBuffer.Repr && inboundBuffer !in inboundBuffer.Repr
      && inboundBuffer.Valid()
    }

    ghost function Contents(): seq<byte>
      reads inboundBuffer
    {
      inboundBuffer.Contents
    }

    constructor ()
      ensures Valid() && fresh(Repr) && Contents() == []
    {
      inboundBuffer := new ElasticRing.RingBuffer();
      new;
      Repr := {this, inboundBuffer};
    }

    /** Peek: the first n bytes, all if n <= 0; an error if there are fewer, or none */
    method Peek(n: int) returns (buf: seq<byte>, err: Errno)
      requires Valid()
      ensures err == if n > |Contents()| || Contents() == [] then ErrShortBuffer else NoError
      ensures err == NoError ==> buf == if n <= 0 then Contents() else Contents()[..n]
    {
      var len := inboundBuffer.Buffered();
      var want := n;
      if n > len {
        return [], ErrShortBuffer;
      } else if n <= 0 {
        want := len;
      }
      if inboundBuffer.Empty() {
        return [], ErrShortBuffer;
      }
      var head, tail := inboundBuffer.Peek(want);
      buf := if |head| >= want then head[..want] else head + tail;
      err := NoError;
    }

    /** Discard: drops n bytes, all of them if n <= 0 or there are fewer */
    method Discard(n: int) returns (discarded: nat)
      requires Valid()
      modifies Repr
      ensures Valid() && Repr == old(Repr)
      ensures discarded == if n <= 0 then old(|Contents()|) else Min(n, old(|Contents()|))
      ensures Contents() == old(Contents())[discarded..]
    {
      var len := inboundBuffer.Buffered();
      if len < n || n <= 0 {
        inboundBuffer.Reset();
        return len;
      }
      var err;
      discarded, err := inboundBuffer.Discard(n);
    }

    /** DefaultDecoder.Decode */
    method Decode(head: DefaultHead) returns (headData: seq<byte>, bodyData: seq<byte>, err: Errno)
      requires Valid() && head !in Repr
      modifies Repr, head
      ensures Valid() && Repr == old(Repr)
      ensures old(|Contents()|) >= HEADER_LEN ==>
                head.bodyLen == BodyLen(old(Contents())) && head.msgId == MsgId(old(Contents()))
      ensures match Framing.Decode(old(Contents()))
              case Short(rest) => err == ErrShortBuffer && Contents() == rest
              case Got(frame, rest) => err == NoError && Frame(headData, bodyData) == frame && Contents() == rest
    {
      headData, bodyData := [], [];
      ghost var was := Contents();
      var bufflen := inboundBuffer.Buffered();
      if bufflen < HEADER_LEN {
        return [], [], ErrShortBuffer;
      }
      headData, err := Peek(HEADER_LEN);
      head.Decode(headData);
      assert headData[..4] == was[..4] && headData[4..8] == was[4..8];
      if bufflen < HEADER_LEN + head.bodyLen {
        return [], [], ErrShortBuffer;
      }
      var _ := Discard(HEADER_LEN);
      bodyData, err := Peek(head.bodyLen);
      if err != NoError {
        return [], [], err;
      }
      var _ := Discard(head.bodyLen);
    }

    /** The loop of the connection's eventRead: buffers what the kernel has, at most 1024 bytes a read. */
    method ReadAll(parts: seq<seq<byte>>, end: End) returns (err: Errno)
      requires Valid() && forall i :: 0 <= i < |parts| ==> 0 < |parts[i]| <= READ_BUFFER_LEN
      modifies Repr
      ensures Valid() && fresh(Repr - old(Repr))
      ensures Contents() == old(Contents()) + Flatten(parts)
      ensures err == if end == WouldBlock then NoError else if end == EndOfStream then ECONNRESET else EFAILED
    {
      assert parts[..0] == [];
      for i := 0 to |parts|
        invariant Valid() && fresh(Repr - old(Repr))
        invariant Contents() == old(Contents()) + Flatten(parts[..i])
      {
        FlattenSnoc(parts, i + 1);
        Associate(old(Contents()), Flatten(parts[..i]), parts[i]);
        var _ := inboundBuffer.Write(parts[i]);
        Repr := Repr + inboundBuffer.Repr;
      }
      assert parts[..|parts|] == parts;
      err := match end
        case WouldBlock => NoError
        case EndOfStream => ECONNRESET
        case Failed => EFAILED;
    }

    /** Server.eventRead: the frames passed to OnTraffic; or, after an error, the connection's end. */
    method EventRead(parts: seq<seq<byte>>, end: End) returns (frames: seq<Frame>, closes: bool)
      requires Valid() && forall i :: 0 <= i < |parts| ==> 0 < |parts[i]| <= READ_BUFFER_LEN
      modifies Repr
      ensures Valid() && fresh(Repr - old(Repr)) && (closes <==> end != WouldBlock)
      ensures closes ==> frames == []
      ensures !closes ==> Traffic(frames, Contents()) == DecodeAll(old(Contents()) + Flatten(parts))
    {
      frames := [];
      var err := ReadAll(parts, end);
      closes := err != NoError;
      if !closes {
        frames := DecodeLoop();
      }
    }

    /** Server.eventRead without a decoder: all that is buffered is passed to OnReceive, and stays buffered;
        nothing is if there is nothing. */
    method EventReceive(parts: seq<seq<byte>>, end: End) returns (received: seq<seq<byte>>, closes: bool)
      requires Valid() && forall i :: 0 <= i < |parts| ==> 0 < |parts[i]| <= READ_BUFFER_LEN
      modifies Repr
      ensures Valid() && fresh(Repr - old(Repr)) && (closes <==> end != WouldBlock)
      ensures Contents() == old(Contents()) + Flatten(parts)
      ensures received == if closes || Contents() == [] then [] else [Contents()]
    {
      received := [];
      var err := ReadAll(parts, end);
      closes := err != NoError;
      if !closes {
        var data;
        data, err := Peek(-1);
        if err == NoError {
          received := [data];
        }
      }
    }

    method DecodeLoop() returns (frames: seq<Frame>)
      requires Valid()
      modifies Repr
      ensures Valid() && Repr == old(Repr)
      ensures Traffic(frames, Contents()) == DecodeAll(old(Contents()))
    {
      frames := [];
      ghost var was := Contents();
      EmptyLeft(DecodeAll(was).frames);
      var err := NoError;
      while err == NoError
        invariant Valid() && Repr == old(Repr)
        invariant err == NoError ==>
                    DecodeAll(was) == Traffic(frames + DecodeAll(Contents()).frames, DecodeAll(Contents()).rest)
        invariant err != NoError ==> DecodeAll(was) == Traffic(frames, Contents())
        decreases err == NoError, |Contents()|
      {
        var h := new DefaultHead();
        ghost var before, seen := Contents(), frames;
        var headData, bodyData;
        headData, bodyData, err := Decode(h);
        if err == NoError {
          frames := frames + [Frame(headData, bodyData)];
          Associate(seen, [Frame(headData, bodyData)], DecodeAll(Contents()).frames);
        } else {
          assert seen + [] == seen;
        }
      }
    }
  }

  /** A frame that arrives whole, but in the same event as the end of the stream, is not passed on. */
  method EndOfStreamDropsFrames(f: Frame) returns (frames: seq<Frame>, closes: bool)
    requires Proper(f) && |f.head + f.body| <= 1024
    ensures DecodeAll(f.head + f.body).frames == [f]
    ensures frames == [] && closes
  {
    var bytes := f.head + f.body;
    DecodeFirst(f, []);
    assert bytes + [] == bytes;
    var c := new Conn();
    frames, closes := c.EventRead([bytes], EndOfStream);
  }
}
