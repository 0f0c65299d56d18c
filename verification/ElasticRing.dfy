/** pkg/buffer/elastic/elastic_ring_buffer.go: a ring that is taken from a pool when needed and given
    back when empty. */
module ElasticRing {
  import opened Bytes
  import opened PowerOfTwo
  import Ring

  /** rbPool.Get: an empty ring of whatever capacity the pool has or makes. */
  method PoolGet() returns (rb: Ring.Buffer)
    ensures fresh(rb) && fresh(rb.buf) && rb.Valid() && rb.Contents == []
  {
    var n :| 0 <= n <= MAXINT_HEAD_BIT;
    rb := new Ring.Buffer(n);
  }

  /** rbPool.Put only drops the reference. */
  class RingBuffer {
    var rb: Ring.Buffer?

    ghost var Contents: seq<byte>
    ghost var Repr: set<object>

    ghost predicate Valid()
      reads this, Repr
    {
      if rb == null then Repr == {} && Contents == []
      else rb in Repr && Repr == {rb, rb.buf} && rb.Valid() && Contents == rb.Contents
    }

    constructor ()
      ensures Valid() && rb == null
    {
      rb, Contents, Repr := null, [], {};
    }

    function Buffered(): (n: nat)
      requires Valid()
      reads this, Repr
      ensures n == |Contents| <= Len()
    {
      if rb == null then 0 else rb.Buffered()
    }

    function Len(): nat
      requires Valid()
      reads this, Repr
    {
      if rb == null then 0 else rb.buf.Length
    }

    function Available(): (n: nat)
      requires Valid()
      reads this, Repr
      ensures n + |Contents| == Len()
    {
      if rb == null then 0 else rb.Available()
    }

    /** IsEmpty */
    predicate Empty()
      requires Valid()
      reads this, Repr
      ensures Empty() <==> Contents == []
    {
      if rb == null then true else rb.Empty()
    }

    method Instance()
      requires Valid()
      modifies this
      ensures Valid() && fresh(Repr - old(Repr)) && rb != null && Contents == old(Contents)
      ensures old(rb) != null ==> rb == old(rb) && Repr == old(Repr)
    {
      if rb == null {
        rb := PoolGet();
        Repr := {rb, rb.buf};
      }
    }

    /** Done */
    method Release()
      requires Valid()
      modifies this
      ensures Valid() && rb == null && Repr == {}
    {
      if rb != null {
        rb, Contents, Repr := null, [], {};
      }
    }

    /** done */
    method ReleaseIfEmpty()
      requires Valid()
      modifies this
      ensures Valid() && Repr <= old(Repr) && Contents == old(Contents)
      ensures Contents == [] ==> rb == null
      ensures Contents != [] ==> rb == old(rb)
    {
      if rb != null && rb.Empty() {
        rb, Repr := null, {};
      }
    }

    method Peek(n: int) returns (head: seq<byte>, tail: seq<byte>)
      requires Valid()
      ensures head + tail == if n <= 0 || n >= |Contents| then Contents else Contents[..n]
      ensures head == [] ==> tail == []
    {
      if rb == null {
        return [], [];
      }
      head, tail := rb.Peek(n);
    }

    method Discard(n: int) returns (discarded: nat, err: Ring.Error)
      requires Valid()
      modifies this, Repr
      ensures Valid() && Repr <= old(Repr)
      ensures discarded == Max(0, Min(n, old(|Contents|))) && Contents == old(Contents)[discarded..]
      ensures err == if old(rb) == null then Ring.ErrIsEmpty else Ring.NoError
      ensures rb == if Contents == [] then null else old(rb)
    {
      if rb == null {
        return 0, Ring.ErrIsEmpty;
      }
      discarded := rb.Discard(n);
      Contents := rb.Contents;
      err := Ring.NoError;
      ReleaseIfEmpty();
    }

    /** Read into p[from:]. */
    method Read(p: array<byte>, from: nat) returns (n: nat, err: Ring.Error)
      requires Valid() && p !in Repr && from <= p.Length
      modifies this, Repr, p
      ensures Valid() && Repr <= old(Repr)
      ensures n == Min(p.Length - from, old(|Contents|))
      ensures p[..] == Splice(old(p[..]), from, old(Contents)[..n]) && Contents == old(Contents)[n..]
      ensures err == if old(rb) == null || (from < p.Length && n == 0) then Ring.ErrIsEmpty else Ring.NoError
      ensures rb == if Contents == [] then null else old(rb)
    {
      if rb == null {
        return 0, Ring.ErrIsEmpty;
      }
      n, err := rb.Read(p, from);
      Contents := rb.Contents;
      ReleaseIfEmpty();
    }

    method Write(p: seq<byte>) returns (n: nat)
      requires Valid() && |p| <= MAXINT_HEAD_BIT
      modifies this, Repr
      ensures Valid() && fresh(Repr - old(Repr))
      ensures n == |p| && Contents == old(Contents) + p
      ensures old(rb) != null && |p| <= old(Available()) ==> Len() == old(Len())
    {
      if |p| == 0 {
        return 0;
      }
      Instance();
      n := rb.Write(p);
      Contents := rb.Contents;
      Repr := {rb, rb.buf};
    }

    method Reset()
      requires Valid()
      modifies this, Repr
      ensures Valid() && Repr == old(Repr) && Contents == []
    {
      if rb != null {
        rb.Reset();
        Contents := [];
      }
    }
  }
}
