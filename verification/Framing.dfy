/** glibevent.go: the header, and on values what the decoder makes of a stream of bytes. */
module Framing {
  import opened Bytes

  type int32 = x: int | -0x8000_0000 <= x < 0x8000_0000

  const HEADER_LEN := 8

  /** binary.Write and binary.Read of an int32, little-endian */
  function PutInt32(v: int32): (data: seq<byte>)
    ensures |data| == 4
  {
    var u := v % 0x1_0000_0000;
    [u % 0x100, u / 0x100 % 0x100, u / 0x100 / 0x100 % 0x100, u / 0x100 / 0x100 / 0x100]
  }

  function Unsigned(a: int, b: int, c: int, d: int): int {
    a + 0x100 * (b + 0x100 * (c + 0x100 * d))
  }

  function GetInt32(data: seq<byte>): int32
    requires |data| == 4
  {
    var u := Unsigned(data[0], data[1], data[2], data[3]);
    if u < 0x8000_0000 then u else u - 0x1_0000_0000
  }

  lemma GetUndoesPut(v: int32)
    ensures GetInt32(PutInt32(v)) == v
  {
    var u := v % 0x1_0000_0000;
    var q := u / 0x100;
    assert u == u % 0x100 + 0x100 * q;
    assert q == q % 0x100 + 0x100 * (q / 0x100);
  }

  lemma Digit(a: int, rest: int)
    requires 0 <= a < 0x100
    ensures (a + 0x100 * rest) % 0x100 == a && (a + 0x100 * rest) / 0x100 == rest
  {
  }

  lemma PutUndoesGet(data: seq<byte>)
    requires |data| == 4
    ensures PutInt32(GetInt32(data)) == data
  {
    var a: int, b: int, c: int, d: int := data[0], data[1], data[2], data[3];
    Digit(a, b + 0x100 * (c + 0x100 * d));
    Digit(b, c + 0x100 * d);
    Digit(c, d);
    assert GetInt32(data) % 0x1_0000_0000 == Unsigned(a, b, c, d);
  }

  /** Little-endian: the least byte comes first; and the number is taken modulo 2^32. */
  ghost predicate LittleEndian(data: seq<byte>, v: int32)
    requires |data| == 4
  {
    data[0] as int + 0x100 * data[1] as int + 0x1_0000 * data[2] as int + 0x100_0000 * data[3] as int
      == v % 0x1_0000_0000
  }

  lemma PutsLittleEndian(v: int32)
    ensures LittleEndian(PutInt32(v), v)
  {
    var u := v % 0x1_0000_0000;
    var q := u / 0x100;
    assert u == u % 0x100 + 0x100 * q;
    assert q == q % 0x100 + 0x100 * (q / 0x100);
  }

  lemma GetsLittleEndian(data: seq<byte>)
    requires |data| == 4
    ensures LittleEndian(data, GetInt32(data))
  {
  }

  /** defaultHead.Encode */
  function Header(bodyLen: int32, msgId: int32): (data: seq<byte>)
    ensures |data| == HEADER_LEN
  {
    PutInt32(bodyLen) + PutInt32(msgId)
  }

  function BodyLen(data: seq<byte>): int32
    requires |data| >= HEADER_LEN
  {
    GetInt32(data[..4])
  }

  function MsgId(data: seq<byte>): int32
    requires |data| >= HEADER_LEN
  {
    GetInt32(data[4..8])
  }

  /** The length is in the first four bytes and the message's number in the next, least byte first. */
  lemma HeaderIsLittleEndian(data: seq<byte>)
    requires |data| >= 8
    ensures data[0] as int + 0x100 * data[1] as int + 0x1_0000 * data[2] as int + 0x100_0000 * data[3] as int
            == BodyLen(data) % 0x1_0000_0000
    ensures data[4] as int + 0x100 * data[5] as int + 0x1_0000 * data[6] as int + 0x100_0000 * data[7] as int
            == MsgId(data) % 0x1_0000_0000
  {
    GetsLittleEndian(data[..4]);
    GetsLittleEndian(data[4..8]);
  }

  /** Encoding then decoding gives the header back, and the other way round. */
  lemma HeaderRoundTrip(bodyLen: int32, msgId: int32, rest: seq<byte>)
    ensures BodyLen(Header(bodyLen, msgId) + rest) == bodyLen
    ensures MsgId(Header(bodyLen, msgId) + rest) == msgId
  {
    GetUndoesPut(bodyLen);
    GetUndoesPut(msgId);
    var data := Header(bodyLen, msgId) + rest;
    assert data[..4] == PutInt32(bodyLen) && data[4..8] == PutInt32(msgId);
  }

  lemma HeaderRoundTripBack(data: seq<byte>)
    requires |data| == HEADER_LEN
    ensures Header(BodyLen(data), MsgId(data)) == data
  {
    PutUndoesGet(data[..4]);
    PutUndoesGet(data[4..8]);
  }

  // ---- the decoder ----

  datatype Frame = Frame(head: seq<byte>, body: seq<byte>)

  datatype Decoded = Short(rest: seq<byte>) | Got(frame: Frame, rest: seq<byte>)

  /** DefaultDecoder.Decode on a buffer that holds s. A length that is not positive means all there is;
      and if there is nothing, the header is gone. */
  function Decode(s: seq<byte>): (d: Decoded)
    ensures d.Got? ==> |d.rest| < |s|
  {
    if |s| < HEADER_LEN || |s| < HEADER_LEN + BodyLen(s) then Short(s)
    else
      var head, data := s[..HEADER_LEN], s[HEADER_LEN..];
      if data == [] then Short([])
      else if BodyLen(s) <= 0 then Got(Frame(head, data), [])
      else Got(Frame(head, data[..BodyLen(s)]), data[BodyLen(s)..])
  }

  /** A call takes one whole frame off the front, or nothing; but a header alone whose length is not
      positive is taken and given to nobody. */
  lemma DecodeAllOrNothing(s: seq<byte>)
    ensures match Decode(s)
            case Got(f, rest) =>
              && f.head + f.body + rest == s && |f.head| == HEADER_LEN
              && |f.body| == if BodyLen(s) > 0 then BodyLen(s) as int else |s| - HEADER_LEN
            case Short(rest) =>
              if |s| == HEADER_LEN && BodyLen(s) <= 0 then rest == []
              else rest == s && |s| < HEADER_LEN + if |s| < HEADER_LEN then 0 else BodyLen(s) as int
  {
    if Decode(s).Got? {
      assert s[..HEADER_LEN] + s[HEADER_LEN..] == s;
      if BodyLen(s) > 0 {
        var data := s[HEADER_LEN..];
        assert data[..BodyLen(s)] + data[BodyLen(s)..] == data;
      }
    }
  }

  datatype Traffic = Traffic(frames: seq<Frame>, rest: seq<byte>)

  /** The loop of Server.eventRead: decodes until the buffer is short. */
  function DecodeAll(s: seq<byte>): Traffic
    decreases |s|
  {
    match Decode(s)
    case Short(rest) => Traffic([], rest)
    case Got(frame, rest) => var t := DecodeAll(rest); Traffic([frame] + t.frames, t.rest)
  }

  /** The chunks arrive one after the other, s being left from before. */
  function Feed(s: seq<byte>, chunks: seq<seq<byte>>): Traffic
    decreases |chunks|
  {
    if chunks == [] then Traffic([], s)
    else
      var t := DecodeAll(s + chunks[0]);
      var u := Feed(t.rest, chunks[1..]);
      Traffic(t.frames + u.frames, u.rest)
  }

  /** One more chunk: what one more read event of the connection adds. */
  lemma {:induction false} FeedSnoc(s: seq<byte>, chunks: seq<seq<byte>>, chunk: seq<byte>)
    ensures var t := Feed(s, chunks);
            var u := DecodeAll(t.rest + chunk);
            Feed(s, chunks + [chunk]) == Traffic(t.frames + u.frames, u.rest)
    decreases |chunks|
  {
    var all := chunks + [chunk];
    if chunks == [] {
      assert all[0] == chunk && |all[1..]| == 0;
      var u := DecodeAll(s + chunk);
      assert [] + u.frames == u.frames + [] == u.frames;
    } else {
      assert all[0] == chunks[0] && all[1..] == chunks[1..] + [chunk];
      var t := DecodeAll(s + chunks[0]);
      FeedSnoc(t.rest, chunks[1..], chunk);
      var later := Feed(t.rest, chunks[1..]);
      Associate(t.frames, later.frames, DecodeAll(later.rest + chunk).frames);
    }
  }

  /** The bytes of frames on the wire. */
  function Wire(frames: seq<Frame>): seq<byte> {
    if frames == [] then [] else frames[0].head + frames[0].body + Wire(frames[1..])
  }

  // ---- chunk independence ----

  /** No header of the stream has a length that is not positive and bytes after it. */
  predicate Clean(s: seq<byte>)
    decreases |s|
  {
    if |s| < HEADER_LEN then true
    else if BodyLen(s) <= 0 then |s| == HEADER_LEN
    else if Decode(s).Short? then true
    else Clean(Decode(s).rest)
  }

  /** What is left of a decoded buffer is short, so decoding it again gives nothing. */
  lemma {:induction false} RestIsShort(s: seq<byte>)
    ensures Decode(DecodeAll(s).rest) == Short(DecodeAll(s).rest)
    decreases |s|
  {
    match Decode(s)
    case Short(rest) =>
    case Got(frame, rest) => RestIsShort(rest);
  }

  lemma LengthIsStable(s: seq<byte>, t: seq<byte>)
    requires |s| >= HEADER_LEN
    ensures BodyLen(s + t) == BodyLen(s)
  {
    assert (s + t)[..4] == s[..4];
  }

  lemma FrameIsStable(s: seq<byte>, t: seq<byte>)
    requires Decode(s).Got? && BodyLen(s) > 0
    ensures Decode(s + t) == Got(Decode(s).frame, Decode(s).rest + t)
  {
    LengthIsStable(s, t);
    assert (s + t)[..HEADER_LEN] == s[..HEADER_LEN];
    assert (s + t)[HEADER_LEN..] == s[HEADER_LEN..] + t;
  }

  /** Bytes that arrive later change nothing of what was decoded before. */
  lemma {:induction false} DecodeInTwo(s: seq<byte>, t: seq<byte>)
    requires Clean(s + t)
    ensures var first := DecodeAll(s);
            var second := DecodeAll(first.rest + t);
            && DecodeAll(s + t) == Traffic(first.frames + second.frames, second.rest)
            && Clean(first.rest + t)
    decreases |s|
  {
    if Decode(s) == Short(s) {
      EmptyLeft(DecodeAll(s + t).frames);
    } else if BodyLen(s) <= 0 {
      LengthIsStable(s, t);
      assert t == [] && s + t == s;
    } else {
      LengthIsStable(s, t);
      FrameIsStable(s, t);
      var frame, rest := Decode(s).frame, Decode(s).rest;
      DecodeInTwo(rest, t);
      Associate([frame], DecodeAll(rest).frames, DecodeAll(DecodeAll(rest).rest + t).frames);
    }
  }

  lemma {:induction false} FeedIsDecodeAll(s: seq<byte>, chunks: seq<seq<byte>>)
    requires Clean(s + Flatten(chunks)) && (chunks == [] ==> Decode(s) == Short(s))
    ensures Feed(s, chunks) == DecodeAll(s + Flatten(chunks))
    decreases |chunks|
  {
    if chunks == [] {
      assert s + [] == s;
    } else {
      var later := Flatten(chunks[1..]);
      Associate(s, chunks[0], later);
      DecodeInTwo(s + chunks[0], later);
      RestIsShort(s + chunks[0]);
      FeedIsDecodeAll(DecodeAll(s + chunks[0]).rest, chunks[1..]);
    }
  }

  /** A frame as a peer sends it: the header's length is that of a body that is not empty. */
  ghost predicate Proper(f: Frame) {
    |f.head| == HEADER_LEN && BodyLen(f.head) == |f.body| > 0
  }

  ghost predicate AllProper(frames: seq<Frame>) {
    forall i :: 0 <= i < |frames| ==> Proper(frames[i])
  }

  lemma DecodeProper(f: Frame, rest: seq<byte>)
    requires Proper(f)
    ensures Decode(f.head + f.body + rest) == Got(f, rest)
  {
    var s := f.head + f.body;
    LengthIsStable(f.head, f.body);
    assert s[..HEADER_LEN] == f.head && s[HEADER_LEN..] == f.body == f.body[..|f.body|];
    FrameIsStable(s, rest);
    assert [] + rest == rest;
  }

  /** data is less than the frame f. */
  lemma DecodePart(f: Frame, data: seq<byte>)
    requires Proper(f) && data < f.head + f.body
    ensures Decode(data) == Short(data) && Clean(data)
  {
    if |data| >= HEADER_LEN {
      assert data[..4] == (f.head + f.body)[..4] == f.head[..4];
    }
  }

  lemma WireCons(f: Frame, frames: seq<Frame>)
    ensures Wire([f] + frames) == f.head + f.body + Wire(frames)
  {
    assert ([f] + frames)[1..] == frames;
  }

  lemma PrefixOfTwo(a: seq<byte>, b: seq<byte>, data: seq<byte>)
    requires data <= a + b
    ensures |data| < |a| ==> data < a
    ensures |data| >= |a| ==> data == a + data[|a|..] && data[|a|..] <= b
  {
    assert data == (a + b)[..|data|];
  }

  /** Some first bytes of a stream of frames decode to the frames they contain whole, and the rest. */
  lemma {:induction false} DecodePrefix(frames: seq<Frame>, data: seq<byte>)
    requires AllProper(frames) && data <= Wire(frames)
    ensures Clean(data)
    ensures var t := DecodeAll(data);
            && t.frames <= frames && Wire(t.frames) + t.rest == data
            && (|t.frames| < |frames| ==> |t.rest| < HEADER_LEN + |frames[|t.frames|].body|)
  {
    if frames == [] {
    } else {
      var f := frames[0];
      var n := |f.head + f.body|;
      PrefixOfTwo(f.head + f.body, Wire(frames[1..]), data);
      if |data| < n {
        DecodePart(f, data);
        EmptyLeft(data);
      } else {
        var rest := data[n..];
        DecodeFirst(f, rest);
        DecodePrefix(frames[1..], rest);
        Associate(f.head + f.body, Wire(DecodeAll(rest).frames), DecodeAll(rest).rest);
      }
    }
  }

  lemma DecodeFirst(f: Frame, rest: seq<byte>)
    requires Proper(f)
    ensures var data := f.head + f.body + rest;
            && DecodeAll(data) == Traffic([f] + DecodeAll(rest).frames, DecodeAll(rest).rest)
            && Wire(DecodeAll(data).frames) == f.head + f.body + Wire(DecodeAll(rest).frames)
            && (Clean(data) <==> Clean(rest))
  {
    DecodeProper(f, rest);
    LengthIsStable(f.head, f.body + rest);
    Associate(f.head, f.body, rest);
    WireCons(f, DecodeAll(rest).frames);
  }

  /** However a stream of frames is cut into chunks, what has arrived of it gives exactly the frames
      it contains whole, in order, and leaves exactly the bytes after them. */
  lemma FramesArriveWhole(frames: seq<Frame>, chunks: seq<seq<byte>>)
    requires AllProper(frames) && Flatten(chunks) <= Wire(frames)
    ensures var t := Feed([], chunks);
            && t.frames <= frames && Wire(t.frames) + t.rest == Flatten(chunks)
            && (|t.frames| < |frames| ==> |t.rest| < HEADER_LEN + |frames[|t.frames|].body|)
  {
    DecodePrefix(frames, Flatten(chunks));
    EmptyLeft(Flatten(chunks));
    FeedIsDecodeAll([], chunks);
  }

  /** Decoding makes no bytes. */
  lemma {:induction false} NoMoreBytes(s: seq<byte>)
    ensures |Wire(DecodeAll(s).frames)| <= |s|
    decreases |s|
  {
    match Decode(s)
    case Short(rest) =>
    case Got(frame, rest) =>
      NoMoreBytes(rest);
      assert ([frame] + DecodeAll(rest).frames)[1..] == DecodeAll(rest).frames;
  }

  lemma {:induction false} WireAppend(a: seq<Frame>, b: seq<Frame>)
    ensures Wire(a + b) == Wire(a) + Wire(b)
  {
    if a == [] {
      EmptyLeft(b);
      EmptyLeft(Wire(b));
    } else {
      WireAppend(a[1..], b);
      assert (a + b)[0] == a[0] && (a + b)[1..] == a[1..] + b;
      Associate(a[0].head + a[0].body, Wire(a[1..]), Wire(b));
    }
  }

  /** A header whose length is not positive takes all that follows it, and is lost if nothing does. */
  lemma BadHeader(head: seq<byte>, data: seq<byte>)
    requires |head| == HEADER_LEN && BodyLen(head) <= 0
    ensures DecodeAll(head) == Traffic([], [])
    ensures data != [] ==> DecodeAll(head + data) == Traffic([Frame(head, data)], [])
  {
    LengthIsStable(head, data);
    assert (head + data)[..HEADER_LEN] == head && (head + data)[HEADER_LEN..] == data;
    assert DecodeAll([]) == Traffic([], []);
  }

  lemma GoodHeader(s: seq<byte>)
    requires Decode(s).Got? && BodyLen(s) > 0
    ensures var d := Decode(s);
            Proper(d.frame) && d.frame.head + d.frame.body + d.rest == s
  {
    assert s[..HEADER_LEN] + s[HEADER_LEN..] == s;
    LengthIsStable(s[..HEADER_LEN], s[HEADER_LEN..]);
    var data := s[HEADER_LEN..];
    assert data[..BodyLen(s)] + data[BodyLen(s)..] == data;
  }

  /** An unclean stream: proper frames, then a bad header with something after it. */
  lemma {:induction false} UncleanForm(s: seq<byte>)
    returns (frames: seq<Frame>, head: seq<byte>, after: seq<byte>)
    requires !Clean(s)
    ensures s == Wire(frames) + (head + after) && AllProper(frames)
    ensures |head| == HEADER_LEN && BodyLen(head) <= 0 && after != []
    decreases |s|
  {
    if BodyLen(s) <= 0 {
      frames, head, after := [], s[..HEADER_LEN], s[HEADER_LEN..];
      assert head + after == s;
      EmptyLeft(s);
      LengthIsStable(head, after);
    } else {
      var f := Decode(s).frame;
      GoodHeader(s);
      frames, head, after := UncleanForm(Decode(s).rest);
      WireCons(f, frames);
      Associate(f.head + f.body, Wire(frames), head + after);
      frames := [f] + frames;
    }
  }

  lemma {:induction false} DecodeFrames(frames: seq<Frame>, rest: seq<byte>)
    requires AllProper(frames)
    ensures DecodeAll(Wire(frames) + rest) == Traffic(frames + DecodeAll(rest).frames, DecodeAll(rest).rest)
  {
    if frames == [] {
      EmptyLeft(rest);
      EmptyLeft(DecodeAll(rest).frames);
    } else {
      var f, later := frames[0], frames[1..];
      DecodeFrames(later, rest);
      Associate(f.head + f.body, Wire(later), rest);
      DecodeFirst(f, Wire(later) + rest);
      Associate([f], later, DecodeAll(rest).frames);
      assert [f] + later == frames;
    }
  }

  lemma FeedOne(s: seq<byte>)
    ensures Feed([], [s]) == DecodeAll(s)
  {
    FlattenOne(s);
    var chunks: seq<seq<byte>> := [s];
    assert |chunks[1..]| == 0;
    EmptyLeft(s);
    var t := DecodeAll(s);
    assert t.frames + [] == t.frames;
  }

  lemma FeedTwo(a: seq<byte>, b: seq<byte>)
    requires DecodeAll(a).rest == []
    ensures Feed([], [a, b]) == Traffic(DecodeAll(a).frames + DecodeAll(b).frames, DecodeAll(b).rest)
  {
    var chunks: seq<seq<byte>> := [a, b];
    assert chunks[1..] == [b];
    EmptyLeft(a);
    FeedOne(b);
  }

  /** The frames do not depend on how the stream is cut into chunks exactly when the stream is clean. */
  lemma ChunkIndependentIffClean(data: seq<byte>)
    ensures (forall chunks | Flatten(chunks) == data :: Feed([], chunks) == DecodeAll(data)) <==> Clean(data)
  {
    EmptyLeft(data);
    if Clean(data) {
      forall chunks | Flatten(chunks) == data ensures Feed([], chunks) == DecodeAll(data) {
        FeedIsDecodeAll([], chunks);
      }
    } else {
      var _ := DirtyCut(data);
    }
  }

  /** The cut that shows it: after the bad header, which is then in no frame. */
  lemma DirtyCut(data: seq<byte>) returns (chunks: seq<seq<byte>>)
    requires !Clean(data)
    ensures Flatten(chunks) == data && Feed([], chunks) != DecodeAll(data)
  {
    var frames, head, after := UncleanForm(data);
    BadHeader(head, after);
    DecodeFrames(frames, head);
    DecodeFrames(frames, head + after);
    FeedTwo(Wire(frames) + head, after);
    NoMoreBytes(after);
    chunks := [Wire(frames) + head, after];
    FlattenTwo(Wire(frames) + head, after);
    Associate(Wire(frames), head, after);
    WireDiffers(frames, Frame(head, after), DecodeAll(after).frames);
  }

  lemma WireDiffers(frames: seq<Frame>, f: Frame, others: seq<Frame>)
    requires |Wire(others)| < |f.head + f.body|
    ensures frames + [] + others != frames + [f]
  {
    WireAppend(frames, [f]);
    WireAppend(frames, others);
    WireCons(f, []);
    assert frames + [] == frames;
  }

  lemma FlattenTwo(a: seq<byte>, b: seq<byte>)
    ensures Flatten([a, b]) == a + b
  {
    FlattenOne(b);
    assert [a, b][1..] == [b];
  }

  /** For instance a message without a body, and then one byte. */
  lemma EmptyMessageDependsOnChunks(bodyLen: int32, msgId: int32, b: byte)
    requires bodyLen <= 0
    ensures var head := Header(bodyLen, msgId);
            && Feed([], [head + [b]]) == Traffic([Frame(head, [b])], [])
            && Feed([], [head, [b]]) == Traffic([], [b])
  {
    var head := Header(bodyLen, msgId);
    HeaderRoundTrip(bodyLen, msgId, []);
    assert head + [] == head;
    BadHeader(head, [b]);
    FeedOne(head + [b]);
    FeedTwo(head, [b]);
  }
}
