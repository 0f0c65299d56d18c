/** pkg/buffer/linkedlist/linked_list_buffer.go: a list of chunks. */
module LinkedList {
  import opened Bytes

  const MAX_INT32 := 0x7fff_ffff

  class Node {
    var buf: seq<byte>
    var next: Node?

    constructor (buf: seq<byte>)
      ensures this.buf == buf && next == null
    {
      this.buf := buf;
      next := null;
    }
  }

  /** The fewest chunks that hold max bytes, or all of them. */
  function Cover(chunks: seq<seq<byte>>, max: int): (k: nat)
    ensures k <= |chunks| && (chunks != [] ==> k > 0)
    decreases |chunks|
  {
    if chunks == [] then 0
    else if |chunks[0]| >= max then 1
    else 1 + Cover(chunks[1..], max - |chunks[0]|)
  }

  /** Chunks after dropping their first n bytes: whole chunks go, the last one touched is cut. */
  function DropBytes(chunks: seq<seq<byte>>, n: nat): seq<seq<byte>>
    decreases |chunks|
  {
    if n == 0 || chunks == [] then chunks
    else if n < |chunks[0]| then [chunks[0][n..]] + chunks[1..]
    else DropBytes(chunks[1..], n - |chunks[0]|)
  }

  ghost predicate NonEmpty(chunks: seq<seq<byte>>) {
    forall i :: 0 <= i < |chunks| ==> chunks[i] != []
  }

  /** bs without its empty slices */
  function DropEmpty(bs: seq<seq<byte>>): seq<seq<byte>> {
    if bs == [] then [] else (if bs[0] == [] then [] else [bs[0]]) + DropEmpty(bs[1..])
  }

  lemma {:induction false} FlattenDropEmpty(bs: seq<seq<byte>>)
    ensures Flatten(DropEmpty(bs)) == Flatten(bs) && NonEmpty(DropEmpty(bs)) && |DropEmpty(bs)| <= |bs|
  {
    if bs == [] {
    } else {
      FlattenDropEmpty(bs[1..]);
      assert DropEmpty(bs) == if bs[0] == [] then DropEmpty(bs[1..]) else [bs[0]] + DropEmpty(bs[1..]);
    }
  }

  /** What Cover takes is a prefix that holds max bytes if there are so many, and without its last
      chunk does not. */
  lemma {:induction false} CoverCovers(chunks: seq<seq<byte>>, max: int)
    ensures Cover(chunks, max) <= |chunks|
    ensures Flatten(chunks[..Cover(chunks, max)]) <= Flatten(chunks)
    ensures |Flatten(chunks[..Cover(chunks, max)])| >= Min(max, |Flatten(chunks)|)
    ensures Cover(chunks, max) > 0 && max > 0 ==> |Flatten(chunks[..Cover(chunks, max) - 1])| < max
    decreases |chunks|
  {
    if chunks == [] {
    } else {
      var k := Cover(chunks, max);
      assert chunks[..k] == [chunks[0]] + chunks[1..][..k - 1];
      FlattenOne(chunks[0]);
      if |chunks[0]| < max {
        CoverCovers(chunks[1..], max - |chunks[0]|);
        FlattenConcat([chunks[0]], chunks[1..][..k - 1]);
        if k > 1 {
          assert chunks[..k - 1] == [chunks[0]] + chunks[1..][..k - 2];
          FlattenConcat([chunks[0]], chunks[1..][..k - 2]);
        } else {
          assert chunks[..0] == [];
        }
      } else {
        assert chunks[..0] == [];
      }
    }
  }

  lemma {:induction false} DropBytesDrops(chunks: seq<seq<byte>>, n: nat)
    ensures Flatten(DropBytes(chunks, n)) == Flatten(chunks)[Min(n, |Flatten(chunks)|)..]
    decreases |chunks|
  {
    if n > 0 && chunks != [] {
      if n < |chunks[0]| {
        assert ([chunks[0][n..]] + chunks[1..])[1..] == chunks[1..];
      } else {
        DropBytesDrops(chunks[1..], n - |chunks[0]|);
      }
    }
  }

  /** Taking chunks one at a time until they hold max bytes. */
  lemma {:induction false} CoverFrom(chunks: seq<seq<byte>>, i: nat, max: int)
    requires i < |chunks| && |Flatten(chunks[..i])| < max
    ensures Flatten(chunks[..i + 1]) == Flatten(chunks[..i]) + chunks[i]
    ensures |Flatten(chunks[..i + 1])| >= max ==> Cover(chunks, max) == i + 1
    ensures |Flatten(chunks[..i + 1])| < max && i + 1 == |chunks| ==> Cover(chunks, max) == i + 1
    decreases |chunks|
  {
    assert chunks[..i + 1] == chunks[..i] + [chunks[i]];
    FlattenAppend(chunks[..i], chunks[i]);
    if i == 0 {
      assert chunks[..0] == [];
    } else {
      assert chunks[..i] == [chunks[0]] + chunks[1..][..i - 1];
      assert chunks[..i + 1] == [chunks[0]] + chunks[1..][..i];
      CoverFrom(chunks[1..], i - 1, max - |chunks[0]|);
    }
  }

  lemma NextChunk(all: seq<seq<byte>>, bs: seq<seq<byte>>, rest: seq<seq<byte>>, max: int)
    requires all == bs + rest && rest != [] && |Flatten(bs)| < max
    ensures var bs' := bs + [rest[0]];
            && all == bs' + rest[1..]
            && |Flatten(bs')| == |Flatten(bs)| + |rest[0]|
            && (|Flatten(bs')| >= max ==> bs' == all[..Cover(all, max)])
            && (|Flatten(bs')| < max && |bs'| == |all| ==> Cover(all, max) == |all|)
  {
    assert all[..|bs|] == bs && all[..|bs| + 1] == bs + [rest[0]];
    CoverFrom(all, |bs|, max);
  }

  lemma Prefix<T>(data: seq<T>, taken: seq<T>, rest: seq<T>)
    requires data == taken + rest
    ensures data[..|taken|] == taken && data[|taken|..] == rest
  {
  }

  /** m bytes of the first chunk move to taken. */
  lemma TakeMore(data: seq<byte>, taken: seq<byte>, chunks: seq<seq<byte>>, m: nat, chunks': seq<seq<byte>>)
    requires chunks != [] && m <= |chunks[0]| && data == taken + Flatten(chunks)
    requires chunks' == (if m < |chunks[0]| then [chunks[0][m..]] else []) + chunks[1..]
    ensures data == (taken + chunks[0][..m]) + Flatten(chunks')
  {
    if m < |chunks[0]| {
      assert chunks'[1..] == chunks[1..];
    } else {
      assert chunks' == chunks[1..];
    }
  }

  class Buffer {
    var head: Node?
    var tail: Node?
    var size: int
    var bytes: int
    ghost var Contents: seq<byte> // the bytes held, oldest first
    ghost var nodes: seq<Node> // the list, from head to tail
    ghost var chunks: seq<seq<byte>> // their buffers
    ghost var Repr: set<Node> // the nodes of the list, and perhaps some that were popped

    /** The nodes form a list from head to tail. */
    ghost predicate Chained()
      reads this, Repr
    {
      && (forall i :: 0 <= i < |nodes| ==> nodes[i] in Repr)
      && (nodes == [] ==> head == null && tail == null)
      && (nodes != [] ==> head == nodes[0] && tail == nodes[|nodes| - 1] && tail.next == null)
      && (forall i {:trigger nodes[i].next} :: 0 <= i < |nodes| - 1 ==> nodes[i].next == nodes[i + 1])
      && (forall i, j :: 0 <= i < j < |nodes| ==> nodes[i] != nodes[j])
    }

    ghost predicate Valid()
      reads this, Repr
    {
      && Chained()
      && |chunks| == |nodes| && (forall i {:trigger nodes[i].buf} :: 0 <= i < |nodes| ==> nodes[i].buf == chunks[i])
      && size == |chunks| && Contents == Flatten(chunks) && bytes == |Contents|
      && NonEmpty(chunks)
    }

    constructor ()
      ensures Valid() && Contents == [] && chunks == [] && Repr == {}
    {
      head, tail, size, bytes := null, null, 0, 0;
      nodes, chunks, Contents, Repr := [], [], [], {};
    }

    /** Buffered */
    function Buffered(): (n: int)
      requires Valid()
      reads this, Repr
      ensures n == |Contents|
    {
      bytes
    }

    /** Len */
    function Len(): (n: int)
      requires Valid()
      reads this, Repr
      ensures n == |chunks|
    {
      size
    }

    /** IsEmpty */
    predicate Empty()
      requires Valid()
      reads this, Repr
      ensures Empty() <==> Contents == []
      ensures Empty() <==> chunks == []
    {
      head == null
    }

    /** pop */
    method Pop() returns (b: Node?)
      requires Valid()
      modifies this, Repr
      ensures Valid() && Repr == old(Repr)
      ensures old(chunks) == [] ==> b == null && chunks == []
      ensures old(chunks) != [] ==>
                && b != null && b in Repr && b !in nodes && b.buf != []
                && old(chunks) == [b.buf] + chunks
    {
      if head == null {
        return null;
      }
      b := head;
      head := b.next;
      if head == null {
        tail := null;
      }
      b.next := null;
      size := size - 1;
      bytes := bytes - |b.buf|;
      nodes, chunks := nodes[1..], chunks[1..];
      Contents := Flatten(chunks);
    }

    /** pushFront */
    method PushNodeFront(b: Node?)
      requires Valid() && (b != null ==> b !in nodes && b.buf != [])
      modifies this, b
      ensures Valid() && Repr == old(Repr) + if b == null then {} else {b}
      ensures chunks == (if b == null then [] else [old(b.buf)]) + old(chunks)
    {
      if b == null {
        return;
      }
      LinkFront(b);
      size := size + 1;
      bytes := bytes + |b.buf|;
      chunks, Contents := [b.buf] + chunks, b.buf + Contents;
      assert chunks[1..] == old(chunks);
    }

    method LinkFront(b: Node)
      requires Chained() && b !in nodes
      modifies `head, `tail, `nodes, `Repr, b`next
      ensures Chained() && Repr == old(Repr) + {b} && nodes == [b] + old(nodes)
    {
      if head == null {
        b.next := null;
        tail := b;
      } else {
        b.next := head;
      }
      head := b;
      nodes, Repr := [b] + nodes, Repr + {b};
    }

    /** pushBack */
    method PushNodeBack(b: Node?)
      requires Valid() && (b != null ==> b !in nodes && b.buf != [])
      modifies this, b, Repr
      ensures Valid() && Repr == old(Repr) + if b == null then {} else {b}
      ensures chunks == old(chunks) + if b == null then [] else [old(b.buf)]
    {
      if b == null {
        return;
      }
      FlattenAppend(chunks, b.buf);
      LinkBack(b);
      size := size + 1;
      bytes := bytes + |b.buf|;
      chunks, Contents := chunks + [b.buf], Contents + b.buf;
    }

    method LinkBack(b: Node)
      requires Chained() && b !in nodes
      modifies `head, `tail, `nodes, `Repr, b`next, Repr`next
      ensures Chained() && Repr == old(Repr) + {b} && nodes == old(nodes) + [b]
    {
      if tail == null {
        head := b;
      } else {
        tail.next := b;
      }
      b.next := null;
      tail := b;
      nodes, Repr := nodes + [b], Repr + {b};
    }

    method PushFront(p: seq<byte>)
      requires Valid()
      modifies this
      ensures Valid() && fresh(Repr - old(Repr))
      ensures chunks == (if p == [] then [] else [p]) + old(chunks)
      ensures Contents == p + old(Contents)
    {
      if |p| == 0 {
        return;
      }
      var b := new Node(p);
      PushNodeFront(b);
      assert chunks[1..] == old(chunks);
    }

    method PushBack(p: seq<byte>)
      requires Valid()
      modifies this, Repr
      ensures Valid() && fresh(Repr - old(Repr))
      ensures chunks == old(chunks) + if p == [] then [] else [p]
      ensures Contents == old(Contents) + p
    {
      if |p| == 0 {
        return;
      }
      var b := new Node(p);
      FlattenAppend(chunks, p);
      PushNodeBack(b);
    }

    /** The body of Read's loop: the popped b goes to p behind what was taken before, and what does
        not fit goes back. */
    method CopyNode(b: Node, p: array<byte>, at: nat, ghost was: seq<byte>, ghost taken: seq<byte>) returns (m: nat)
      requires Valid() && b !in nodes && b.buf != [] && at < p.Length && b in Repr
      requires p.Length == |was| && |taken| <= at && p[..] == Splice(was, at - |taken|, taken)
      modifies this, b, p
      ensures Valid() && Repr == old(Repr)
      ensures m == Min(p.Length - at, old(|b.buf|))
      ensures p[..] == Splice(was, at - |taken|, taken + old(b.buf)[..m])
      ensures chunks == (if m < old(|b.buf|) then [old(b.buf)[m..]] else []) + old(chunks)
    {
      m := Min(p.Length - at, |b.buf|);
      SpliceTwice(was, at - |taken|, taken, b.buf[..m]);
      Copy(p, at, b.buf[..m]);
      if m < |b.buf| {
        b.buf := b.buf[m..];
        PushNodeFront(b);
      }
    }

    /** Read into p[from:]. */
    method Read(p: array<byte>, from: nat) returns (n: nat)
      requires Valid() && from <= p.Length
      modifies this, Repr, p
      ensures Valid() && Repr == old(Repr)
      ensures n == Min(p.Length - from, |old(Contents)|)
      ensures p[..] == Splice(old(p[..]), from, old(Contents)[..n])
      ensures Contents == old(Contents)[n..]
    {
      n := 0;
      if p.Length - from == 0 {
        return;
      }
      ghost var was, data, taken := p[..], Contents, [];
      ghost var left := chunks;
      var b := Pop();
      while b != null
        invariant Valid() && Repr == old(Repr)
        invariant b != null ==> b in Repr && b !in nodes && b.buf != [] && left == [b.buf] + chunks
        invariant b == null ==> chunks == [] && left == []
        invariant n == |taken| && from + n <= p.Length && (b != null ==> from + n < p.Length)
        invariant p[..] == Splice(was, from, taken)
        invariant data == taken + Flatten(left)
        decreases |left|
      {
        ghost var chunk := b.buf;
        var m := CopyNode(b, p, from + n, was, taken);
        assert from + n - |taken| == from;
        TakeMore(data, taken, left, m, chunks);
        taken, left := taken + chunk[..m], chunks;
        n := n + m;
        if n == p.Length - from {
          break;
        }
        b := Pop();
      }
      Prefix(data, taken, Contents);
    }

    method Discard(n: int) returns (discarded: nat)
      requires Valid()
      modifies this, Repr
      ensures Valid() && Repr == old(Repr)
      ensures discarded == Max(0, Min(n, |old(Contents)|))
      ensures Contents == old(Contents)[discarded..]
    {
      discarded := 0;
      if n <= 0 {
        return;
      }
      var left := n;
      ghost var was := chunks;
      DropBytesDrops(was, n);
      while left != 0
        invariant Valid() && Repr == old(Repr)
        invariant 0 <= left && discarded + left == n
        invariant DropBytes(chunks, left) == DropBytes(was, n)
        invariant discarded + |Flatten(chunks)| == |Flatten(was)|
        decreases |chunks|
      {
        ghost var before := chunks;
        var b := Pop();
        if b == null {
          break;
        }
        assert before[1..] == chunks;
        if left < |b.buf| {
          b.buf := b.buf[left..];
          discarded := discarded + left;
          PushNodeFront(b);
          assert chunks == DropBytes(before, left);
          return;
        }
        left := left - |b.buf|;
        discarded := discarded + |b.buf|;
      }
      assert chunks == DropBytes(chunks, left);
    }

    method Reset()
      requires Valid()
      modifies this, Repr
      ensures Valid() && Repr == old(Repr) && Contents == [] && chunks == []
    {
      var b := Pop();
      while b != null
        invariant Valid() && Repr == old(Repr)
        invariant b == null ==> chunks == []
        decreases if b == null then 0 else 1 + |chunks|
      {
        b := Pop();
      }
      head, tail, size, bytes := null, null, 0, 0;
    }

    /** The fewest whole chunks that hold maxBytes (MaxInt32 if maxBytes <= 0), or all of them. */
    method Peek(maxBytes: int) returns (bs: seq<seq<byte>>)
      requires Valid()
      ensures var max := if maxBytes <= 0 then 0x7fff_ffff else maxBytes;
              bs == chunks[..Cover(chunks, max)]
    {
      var max := if maxBytes <= 0 then MAX_INT32 else maxBytes;
      assert chunks[..0] == [];
      bs := PeekNodes(max, [], 0, chunks);
    }

    /** ... of the slices given followed by the list's own. */
    method PeekWithBytes(maxBytes: int, given: seq<seq<byte>>) returns (bs: seq<seq<byte>>)
      requires Valid()
      ensures var max := if maxBytes <= 0 then 0x7fff_ffff else maxBytes;
              var all := DropEmpty(given) + chunks;
              bs == all[..Cover(all, max)]
    {
      var max := if maxBytes <= 0 then MAX_INT32 else maxBytes;
      ghost var all := DropEmpty(given) + chunks;
      var cum;
      bs, cum := PeekGiven(max, given, chunks);
      if cum >= max {
        return;
      }
      bs := PeekNodes(max, bs, cum, all);
    }

    /** The loop over the slices given: they are taken until they hold max bytes. */
    static method PeekGiven(max: int, given: seq<seq<byte>>, ghost chunks: seq<seq<byte>>)
      returns (bs: seq<seq<byte>>, cum: nat)
      requires max > 0
      ensures var all := DropEmpty(given) + chunks;
              && cum == |Flatten(bs)|
              && (cum >= max ==> bs == all[..Cover(all, max)])
              && (cum < max ==> bs == DropEmpty(given) && (|bs| == |all| ==> Cover(all, max) == |all|))
    {
      bs, cum := [], 0;
      ghost var all := DropEmpty(given) + chunks;
      ghost var rest := all;
      for i := 0 to |given|
        invariant cum == |Flatten(bs)| < max
        invariant all == bs + rest && rest == DropEmpty(given[i..]) + chunks
        invariant bs != [] && |bs| == |all| ==> Cover(all, max) == |all|
      {
        var n := |given[i]|;
        assert given[i..][0] == given[i] && given[i..][1..] == given[i + 1..];
        if n > 0 {
          assert rest == [given[i]] + (DropEmpty(given[i + 1..]) + chunks);
          NextChunk(all, bs, rest, max);
          bs := bs + [given[i]];
          rest := rest[1..];
          cum := cum + n;
          if cum >= max {
            return;
          }
        }
      }
      assert given[|given|..] == [] && rest == chunks;
      Prefix(all, bs, chunks);
      Prefix(all, DropEmpty(given), chunks);
    }

    /** The loop over the nodes shared by both Peeks: bs, the start of all, is extended by chunks. */
    method PeekNodes(max: int, given: seq<seq<byte>>, givenCum: nat, ghost all: seq<seq<byte>>)
      returns (bs: seq<seq<byte>>)
      requires Valid() && all == given + chunks && givenCum == |Flatten(given)| < max
      requires |given| == |all| ==> Cover(all, max) == |all|
      ensures bs == all[..Cover(all, max)]
    {
      bs := given;
      var cum := givenCum;
      var iter := head;
      ghost var k := 0;
      while iter != null
        invariant 0 <= k <= |nodes| && iter == (if k < |nodes| then nodes[k] else null)
        invariant |bs| == |given| + k && bs == all[..|bs|] && cum == |Flatten(bs)| < max
        invariant |bs| == |all| ==> Cover(all, max) == |all|
        decreases |nodes| - k
      {
        assert all[|bs|] == iter.buf;
        CoverFrom(all, |bs|, max);
        bs := bs + [iter.buf];
        cum := cum + |iter.buf|;
        k := k + 1;
        if cum >= max {
          break;
        }
        iter := iter.next;
      }
    }
  }
}
