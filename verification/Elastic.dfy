/** Frames of objects made of parts. */
module Frames {
  /** whole has the parts a and b, with their representations, and these do not overlap. */
  ghost predicate Parts(whole: object, repr: set<object>, a: object, aRepr: set<object>, b: object, bRepr: set<object>) {
    && whole in repr && a in repr && b in repr && aRepr <= repr && bRepr <= repr
    && whole !in aRepr && a !in aRepr && b !in aRepr && aRepr !! bRepr
  }
}

/** pkg/buffer/elastic/elastic_ring_list_buffer.go: a buffer that spills from a ring into a list of
    chunks. */
module Elastic {
  import opened Bytes
  import opened Frames
  import opened PowerOfTwo
  import opened ElasticRing
  import LinkedList
  import Ring

  /** n bytes are taken off the ring, and m off the list if the ring has no more. */
  lemma TakeBoth(ring: seq<byte>, list: seq<byte>, n: nat, m: nat, ring': seq<byte>, list': seq<byte>)
    requires n <= |ring| && m <= |list| && (n == |ring| || m == 0)
    requires ring' == ring[n..] && list' == list[m..]
    ensures ring' + list' == (ring + list)[n + m..]
  {
  }

  /** And they are copied to the front of was. */
  lemma CopyBoth(was: seq<byte>, ring: seq<byte>, list: seq<byte>, n: nat, m: nat, p: seq<byte>)
    requires n <= |ring| && m <= |list| && (n == |ring| || m == 0) && n + m <= |was|
    requires p == Splice(Splice(was, 0, ring[..n]), n, list[..m])
    ensures p == Splice(was, 0, (ring + list)[..n + m])
  {
    SpliceTwice(was, 0, ring[..n], list[..m]);
    assert ring[..n] + list[..m] == (ring + list)[..n + m];
  }

  lemma EmptySplice(data: seq<byte>, at: nat)
    requires at <= |data|
    ensures Splice(data, at, []) == data
  {
  }

  lemma AppendSplit(c: seq<byte>, p: seq<byte>, k: nat)
    requires k <= |p|
    ensures (c + p[..k]) + p[k..] == c + p
  {
  }

  lemma AppendRing(ring: seq<byte>, list: seq<byte>, p: seq<byte>)
    requires list == []
    ensures (ring + p) + list == (ring + list) + p
  {
  }

  /** How many bytes a Writev may put into a ring of len bytes that holds held: it may grow up to max. */
  function Room(held: nat, len: nat, max: int): nat
    requires held <= len
  {
    if held >= max then 0 else if len < max then max - held else len - held
  }

  /** bs is a prefix of data, as slices, that holds want bytes if there are so many, and no more slices than
      that takes; the first slice is not empty unless data is, and then there are none. */
  ghost predicate Covers(bs: seq<seq<byte>>, data: seq<byte>, want: nat) {
    && Flatten(bs) <= data && |Flatten(bs)| >= Min(want, |data|)
    && (bs != [] && |Flatten(bs)| > want ==> |Flatten(bs[..|bs| - 1])| < want)
    && (data != [] ==> bs != [] && bs[0] != []) && (data == [] ==> bs == [])
  }

  /** The slices of a peek into the ring, followed by the list's chunks. */
  lemma PeekBoth(head: seq<byte>, tail: seq<byte>, chunks: seq<seq<byte>>, n: nat, bs: seq<seq<byte>>)
    requires LinkedList.NonEmpty(chunks) && n > 0
    requires var all := LinkedList.DropEmpty([head, tail]) + chunks;
             bs == all[..LinkedList.Cover(all, n)]
    ensures Covers(bs, head + tail + Flatten(chunks), n) && |bs| <= 2 + |chunks|
  {
    var all := LinkedList.DropEmpty([head, tail]) + chunks;
    LinkedList.FlattenDropEmpty([head, tail]);
    FlattenConcat(LinkedList.DropEmpty([head, tail]), chunks);
    assert [head, tail][1..] == [tail];
    FlattenOne(tail);
    LinkedList.CoverCovers(all, n);
    if all != [] {
      assert all[0] != [];
      assert bs[..|bs| - 1] == all[..|bs| - 1];
    }
  }

  /** The slices of a peek that the ring alone can serve. */
  lemma PeekRing(head: seq<byte>, tail: seq<byte>, ring: seq<byte>, list: seq<byte>, n: nat)
    requires 0 < n <= |ring| && head + tail == ring[..n] && (head == [] ==> tail == [])
    ensures Covers([head, tail], ring + list, n)
  {
    assert [head, tail][1..] == [tail];
    FlattenOne(tail);
    assert (ring + list)[..n] == ring[..n];
  }

  datatype Error = NoError | ErrNegativeSize

  class Buffer {
    var maxStaticBytes: int
    const ringBuffer: RingBuffer
    const listBuffer: LinkedList.Buffer

    ghost var Contents: seq<byte> // the bytes held, oldest first: the ring's, then the list's
    ghost var Repr: set<object>

    ghost predicate Sound()
      reads this, Repr
    {
      && ringBuffer in Repr && listBuffer in Repr
      && Parts(this, Repr, ringBuffer, ringBuffer.Repr, listBuffer, listBuffer.Repr)
      && ringBuffer.Valid() && listBuffer.Valid()
    }

    ghost predicate Valid()
      reads this, Repr
    {
      Sound() && Contents == ringBuffer.Contents + listBuffer.Contents
    }

    constructor (maxStaticBytes: int)
      ensures Valid() && fresh(Repr) && Contents == [] && this.maxStaticBytes == maxStaticBytes
    {
      this.maxStaticBytes := maxStaticBytes;
      ringBuffer := new RingBuffer();
      listBuffer := new LinkedList.Buffer();
      Contents := [];
      new;
      Repr := {this, ringBuffer, listBuffer};
    }

    static method New(maxStaticBytes: int) returns (mb: Buffer?, err: Error)
      ensures err == ErrNegativeSize <==> maxStaticBytes <= 0
      ensures err == ErrNegativeSize <==> mb == null
      ensures mb != null ==> fresh(mb) && fresh(mb.Repr) && mb.Valid() && mb.Contents == []
      ensures mb != null ==> mb.maxStaticBytes == maxStaticBytes
    {
      if maxStaticBytes <= 0 {
        return null, ErrNegativeSize;
      }
      mb := new Buffer(maxStaticBytes);
      err := NoError;
    }

    function Buffered(): (n: int)
      requires Valid()
      reads this, Repr
      ensures n == |Contents|
    {
      ringBuffer.Buffered() + listBuffer.Buffered()
    }

    /** IsEmpty */
    predicate Empty()
      requires Valid()
      reads this, Repr
      ensures Empty() <==> Contents == []
    {
      ringBuffer.Empty() && listBuffer.Empty()
    }

    method Read(p: array<byte>) returns (n: nat, err: Ring.Error)
      requires Valid() && p !in Repr
      modifies Repr, p
      ensures Valid() && Repr == old(Repr) && maxStaticBytes == old(maxStaticBytes)
      ensures n == Min(p.Length, old(|Contents|))
      ensures p[..] == Splice(old(p[..]), 0, old(Contents)[..n])
      ensures Contents == old(Contents)[n..]
      ensures err == if p.Length == 0 && old(ringBuffer.rb) == null then Ring.ErrIsEmpty else Ring.NoError
    {
      ghost var was, ring, list := p[..], ringBuffer.Contents, listBuffer.Contents;
      var m;
      n, m, err := ReadParts(p);
      Contents := ringBuffer.Contents + listBuffer.Contents;
      TakeBoth(ring, list, n, m, ringBuffer.Contents, listBuffer.Contents);
      CopyBoth(was, ring, list, n, m, p[..]);
      n := n + m;
    }

    /** The reads of the ring and the list. */
    method ReadParts(p: array<byte>) returns (n: nat, m: nat, err: Ring.Error)
      requires Sound() && p !in Repr
      modifies ringBuffer, ringBuffer.Repr, listBuffer, listBuffer.Repr, p
      ensures Sound()
      ensures n == Min(p.Length, old(|ringBuffer.Contents|)) && m == Min(p.Length - n, old(|listBuffer.Contents|))
      ensures ringBuffer.Contents == old(ringBuffer.Contents)[n..] && listBuffer.Contents == old(listBuffer.Contents)[m..]
      ensures p[..] == Splice(Splice(old(p[..]), 0, old(ringBuffer.Contents)[..n]), n, old(listBuffer.Contents)[..m])
      ensures err == if p.Length == 0 && old(ringBuffer.rb) == null then Ring.ErrIsEmpty else Ring.NoError
    {
      n, err := ringBuffer.Read(p, 0);
      m := 0;
      if n != p.Length {
        m := listBuffer.Read(p, n);
        err := Ring.NoError;
      } else {
        EmptySplice(p[..], n);
      }
    }

    method Discard(n: int) returns (discarded: nat, err: Ring.Error)
      requires Valid()
      modifies Repr
      ensures Valid() && Repr == old(Repr) && maxStaticBytes == old(maxStaticBytes)
      ensures discarded == Max(0, Min(n, old(|Contents|)))
      ensures Contents == old(Contents)[discarded..]
      ensures err == if n <= 0 && old(ringBuffer.rb) == null then Ring.ErrIsEmpty else Ring.NoError
    {
      ghost var ring, list := ringBuffer.Contents, listBuffer.Contents;
      var m;
      discarded, m, err := DiscardParts(n);
      Contents := ringBuffer.Contents + listBuffer.Contents;
      TakeBoth(ring, list, discarded, m, ringBuffer.Contents, listBuffer.Contents);
      if n > discarded {
        err := Ring.NoError;
      }
      discarded := discarded + m;
    }

    /** The discards of the ring, with its error, and of the list. */
    method DiscardParts(n: int) returns (d: nat, m: nat, err: Ring.Error)
      requires Sound()
      modifies ringBuffer, ringBuffer.Repr, listBuffer, listBuffer.Repr
      ensures Sound()
      ensures d == Max(0, Min(n, old(|ringBuffer.Contents|)))
      ensures m == if n > d then Min(n - d, old(|listBuffer.Contents|)) else 0
      ensures ringBuffer.Contents == old(ringBuffer.Contents)[d..] && listBuffer.Contents == old(listBuffer.Contents)[m..]
      ensures err == if old(ringBuffer.rb) == null then Ring.ErrIsEmpty else Ring.NoError
    {
      d, err := ringBuffer.Discard(n);
      m := 0;
      if n > d {
        m := listBuffer.Discard(n - d);
      }
    }

    method Write(p: seq<byte>) returns (n: nat)
      requires Valid() && |p| <= MAXINT_HEAD_BIT
      modifies Repr
      ensures Valid() && fresh(Repr - old(Repr)) && maxStaticBytes == old(maxStaticBytes)
      ensures n == |p| && Contents == old(Contents) + p
      ensures old(ringBuffer.Len()) >= maxStaticBytes ==> ringBuffer.Len() == old(ringBuffer.Len())
      ensures var k := if old(listBuffer.Contents) != [] || old(|ringBuffer.Contents|) >= maxStaticBytes then 0
                       else if old(ringBuffer.Len()) < maxStaticBytes then |p|
                       else Min(|p|, old(ringBuffer.Available()));
              |ringBuffer.Contents| == old(|ringBuffer.Contents|) + k
      ensures old(listBuffer.Contents) == [] && listBuffer.Contents != [] ==> |ringBuffer.Contents| >= maxStaticBytes
    {
      n := |p|;
      var writable := ringBuffer.Available();
      if !listBuffer.Empty() || ringBuffer.Buffered() >= maxStaticBytes {
        PushToList(p);
      } else if ringBuffer.Len() >= maxStaticBytes && n > writable {
        PushSplit(p, writable);
      } else {
        PushToRing(p);
      }
    }

    /** The first k bytes to the ring, the others to the list */
    method PushSplit(p: seq<byte>, k: nat)
      requires Valid() && listBuffer.chunks == [] && k <= |p| <= MAXINT_HEAD_BIT
      modifies Repr
      ensures Valid() && fresh(Repr - old(Repr)) && maxStaticBytes == old(maxStaticBytes)
      ensures Contents == old(Contents) + p
      ensures |ringBuffer.Contents| == old(|ringBuffer.Contents|) + k
      ensures 0 < old(ringBuffer.Len()) && |ringBuffer.Contents| <= old(ringBuffer.Len()) ==>
                ringBuffer.Len() == old(ringBuffer.Len())
    {
      AppendSplit(Contents, p, k);
      PushToRing(p[..k]);
      PushToList(p[k..]);
    }

    /** listBuffer.PushBack */
    method PushToList(p: seq<byte>)
      requires Valid()
      modifies Repr
      ensures Valid() && fresh(Repr - old(Repr)) && maxStaticBytes == old(maxStaticBytes)
      ensures Contents == old(Contents) + p
      ensures ringBuffer.Len() == old(ringBuffer.Len()) && ringBuffer.Contents == old(ringBuffer.Contents)
      ensures listBuffer.Contents == old(listBuffer.Contents) + p
      ensures p == [] ==> listBuffer.chunks == old(listBuffer.chunks)
    {
      Associate(ringBuffer.Contents, listBuffer.Contents, p);
      listBuffer.PushBack(p);
      Contents := ringBuffer.Contents + listBuffer.Contents;
      Repr := Repr + listBuffer.Repr;
    }

    /** ringBuffer.Write, while the list is empty */
    method PushToRing(p: seq<byte>)
      requires Valid() && listBuffer.chunks == [] && |p| <= MAXINT_HEAD_BIT
      modifies Repr
      ensures Valid() && fresh(Repr - old(Repr)) && maxStaticBytes == old(maxStaticBytes)
      ensures Contents == old(Contents) + p && listBuffer.chunks == []
      ensures ringBuffer.Contents == old(ringBuffer.Contents) + p
      ensures 0 < old(ringBuffer.Len()) && |ringBuffer.Contents| <= old(ringBuffer.Len()) ==>
                ringBuffer.Len() == old(ringBuffer.Len())
    {
      AppendRing(ringBuffer.Contents, listBuffer.Contents, p);
      var _ := ringBuffer.Write(p);
      Contents := ringBuffer.Contents + listBuffer.Contents;
      Repr := Repr + ringBuffer.Repr;
    }

    /** n <= 0 means 2^31 - 1. */
    method Peek(n: int) returns (bs: seq<seq<byte>>)
      requires Valid()
      ensures Covers(bs, Contents, if n <= 0 then 0x7fff_ffff else n) && |bs| <= 2 + |listBuffer.chunks|
    {
      var want := if n <= 0 then LinkedList.MAX_INT32 else n;
      var head, tail := ringBuffer.Peek(want);
      if ringBuffer.Buffered() >= want {
        PeekRing(head, tail, ringBuffer.Contents, listBuffer.Contents, want);
        bs := [head, tail];
      } else {
        bs := listBuffer.PeekWithBytes(want, [head, tail]);
        PeekBoth(head, tail, listBuffer.chunks, want, bs);
      }
    }

    method Writev(bs: seq<seq<byte>>) returns (n: nat)
      requires Valid() && forall i :: 0 <= i < |bs| ==> |bs[i]| <= MAXINT_HEAD_BIT
      modifies Repr
      ensures Valid() && fresh(Repr - old(Repr)) && maxStaticBytes == old(maxStaticBytes)
      ensures n == |Flatten(bs)| && Contents == old(Contents) + Flatten(bs)
      ensures old(ringBuffer.Len()) >= maxStaticBytes ==> ringBuffer.Len() == old(ringBuffer.Len())
      ensures var room := Room(old(|ringBuffer.Contents|), old(ringBuffer.Len()), maxStaticBytes);
              |ringBuffer.Contents| ==
                old(|ringBuffer.Contents|) + if old(listBuffer.Contents) != [] then 0 else Min(n, room)
    {
      if !listBuffer.Empty() || ringBuffer.Buffered() >= maxStaticBytes {
        n := PushAll(bs);
      } else {
        var pos;
        pos, n := FillRing(bs);
        var m := PushAll(bs[pos..]);
        FlattenSplit(bs, pos);
        Associate(old(Contents), Flatten(bs[..pos]), Flatten(bs[pos..]));
        n := n + m;
      }
    }

    /** The first loop of Writev: slices go to the ring while there is room; the first that does not
        fit is split, and there the loop breaks off. */
    method FillRing(bs: seq<seq<byte>>) returns (pos: nat, n: nat)
      requires Valid() && forall i :: 0 <= i < |bs| ==> |bs[i]| <= MAXINT_HEAD_BIT
      requires listBuffer.chunks == [] && ringBuffer.Buffered() < maxStaticBytes
      modifies Repr
      ensures Valid() && fresh(Repr - old(Repr)) && maxStaticBytes == old(maxStaticBytes)
      ensures pos <= |bs| && n == |Flatten(bs[..pos])| && Contents == old(Contents) + Flatten(bs[..pos])
      ensures old(ringBuffer.Len()) >= maxStaticBytes ==> ringBuffer.Len() == old(ringBuffer.Len())
      ensures var room := Room(old(|ringBuffer.Contents|), old(ringBuffer.Len()), maxStaticBytes);
              |ringBuffer.Contents| == old(|ringBuffer.Contents|) + Min(n, room) && (pos < |bs| ==> n > room)
    {
      var writable := ringBuffer.Available();
      if ringBuffer.Len() < maxStaticBytes {
        writable := maxStaticBytes - ringBuffer.Buffered();
      }
      pos, n := FillUpTo(bs, writable);
    }

    /** The loop itself; room is what there is for the ring. */
    method FillUpTo(bs: seq<seq<byte>>, room: nat) returns (pos: nat, n: nat)
      requires Valid() && forall i :: 0 <= i < |bs| ==> |bs[i]| <= MAXINT_HEAD_BIT
      requires listBuffer.chunks == []
      modifies Repr
      ensures Valid() && fresh(Repr - old(Repr)) && maxStaticBytes == old(maxStaticBytes)
      ensures pos <= |bs| && n == |Flatten(bs[..pos])| && Contents == old(Contents) + Flatten(bs[..pos])
      ensures 0 < old(ringBuffer.Len()) && |ringBuffer.Contents| <= old(ringBuffer.Len()) ==>
                ringBuffer.Len() == old(ringBuffer.Len())
      ensures |ringBuffer.Contents| == old(|ringBuffer.Contents|) + Min(n, room)
      ensures pos < |bs| ==> n > room
    {
      var writable, fits := room, true;
      pos, n := 0, 0;
      assert bs[..0] == [];
      while fits && pos < |bs|
        invariant Valid() && fresh(Repr - old(Repr)) && maxStaticBytes == old(maxStaticBytes)
        invariant pos <= |bs| && n == |Flatten(bs[..pos])| && Contents == old(Contents) + Flatten(bs[..pos])
        invariant |ringBuffer.Contents| == old(|ringBuffer.Contents|) + Min(n, room)
        invariant if fits then listBuffer.chunks == [] && writable == room - n >= 0 else n > room
        invariant 0 < old(ringBuffer.Len()) && |ringBuffer.Contents| <= old(ringBuffer.Len()) ==>
                    ringBuffer.Len() == old(ringBuffer.Len())
      {
        var b := bs[pos];
        pos := pos + 1;
        n := n + |b|;
        FlattenSnoc(bs, pos);
        Associate(old(Contents), Flatten(bs[..pos - 1]), b);
        fits := FillOne(b, writable);
        writable := if fits then writable - |b| else 0;
      }
    }

    /** The body of that loop: whether the whole of b went to the ring. */
    method FillOne(b: seq<byte>, writable: nat) returns (fits: bool)
      requires Valid() && |b| <= MAXINT_HEAD_BIT && listBuffer.chunks == []
      modifies Repr
      ensures Valid() && fresh(Repr - old(Repr)) && maxStaticBytes == old(maxStaticBytes)
      ensures fits == (|b| <= writable) && Contents == old(Contents) + b
      ensures fits ==> listBuffer.chunks == []
      ensures |ringBuffer.Contents| == old(|ringBuffer.Contents|) + Min(|b|, writable)
      ensures 0 < old(ringBuffer.Len()) && |ringBuffer.Contents| <= old(ringBuffer.Len()) ==>
                ringBuffer.Len() == old(ringBuffer.Len())
    {
      fits := |b| <= writable;
      if !fits {
        PushSplit(b, writable);
      } else {
        PushToRing(b);
      }
    }

    /** listBuffer.PushBack of each of bs */
    method PushAll(bs: seq<seq<byte>>) returns (n: nat)
      requires Valid()
      modifies Repr
      ensures Valid() && fresh(Repr - old(Repr)) && maxStaticBytes == old(maxStaticBytes)
      ensures n == |Flatten(bs)| && Contents == old(Contents) + Flatten(bs)
      ensures ringBuffer.Len() == old(ringBuffer.Len()) && ringBuffer.Contents == old(ringBuffer.Contents)
      ensures listBuffer.Contents == old(listBuffer.Contents) + Flatten(bs)
    {
      n := 0;
      assert bs[..0] == [];
      for i := 0 to |bs|
        invariant Valid() && fresh(Repr - old(Repr)) && maxStaticBytes == old(maxStaticBytes)
        invariant n == |Flatten(bs[..i])| && Contents == old(Contents) + Flatten(bs[..i])
        invariant ringBuffer.Len() == old(ringBuffer.Len()) && ringBuffer.Contents == old(ringBuffer.Contents)
        invariant listBuffer.Contents == old(listBuffer.Contents) + Flatten(bs[..i])
      {
        FlattenSnoc(bs, i + 1);
        Associate(old(Contents), Flatten(bs[..i]), bs[i]);
        Associate(old(listBuffer.Contents), Flatten(bs[..i]), bs[i]);
        PushToList(bs[i]);
        n := n + |bs[i]|;
      }
      assert bs[..|bs|] == bs;
    }

    method Reset(maxStaticBytes: int)
      requires Valid()
      modifies Repr
      ensures Valid() && Repr == old(Repr) && Contents == []
      ensures this.maxStaticBytes == if maxStaticBytes > 0 then maxStaticBytes else old(this.maxStaticBytes)
    {
      ringBuffer.Reset();
      listBuffer.Reset();
      Contents := [];
      if maxStaticBytes > 0 {
        this.maxStaticBytes := maxStaticBytes;
      }
    }

    method Release()
      requires Valid()
      modifies Repr
      ensures Valid() && Repr == old(Repr) && maxStaticBytes == old(maxStaticBytes) && Contents == []
      ensures ringBuffer.rb == null && listBuffer.chunks == []
    {
      ringBuffer.Release();
      listBuffer.Reset();
      Contents := [];
    }
  }
}
