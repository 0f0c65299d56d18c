/** pkg/pool/byteslice/byteslice.go: byte slices pooled by powers of two. The pool keeps bare pointers:
    the class they are filed in is all it knows of how many bytes they point to. */
module ByteSlicePool {
  import opened Bits
  import opened Wrappers

  const MAX_INT32 := 0x7FFF_FFFF
  const CLASSES := 32

  /** index: bits.Len32(n - 1), in 32-bit arithmetic */
  function Index(n: nat): nat
    requires n < 0x1_0000_0000
  {
    BitLen((n - 1) % 0x1_0000_0000)
  }

  lemma LeastExponent(n: nat, b: nat)
    requires n >= 1 && b == BitLen(n - 1)
    ensures n <= Pow2(b) && (n > 1 ==> Pow2(b) < 2 * n) && (n == 1 ==> b == 0)
  {
    if n > 1 { BitLenBounds(n - 1); }
  }

  lemma LengthAbove30(m: nat, b: nat)
    requires m < Pow2(31) && b == BitLen(m)
    ensures b < CLASSES && (b == CLASSES - 1 <==> m >= Pow2(30))
  {
    BitLenAtMost(m, 31);
    if m < Pow2(30) {
      BitLenAtMost(m, 30);
    } else {
      BitLenBounds(m);
      Pow2Monotone(b, 30);
    }
  }

  lemma IndexIsLength(n: nat)
    requires 1 <= n < 0x1_0000_0000
    ensures Index(n) == BitLen(n - 1)
  {
    assert (n - 1) % 0x1_0000_0000 == n - 1;
  }

  /** The class is the exponent of the least power of two that holds n bytes. */
  lemma IndexIsLeast(n: nat)
    requires 1 <= n <= 0x7fff_ffff
    ensures n <= Pow2(Index(n)) && (n > 1 ==> Pow2(Index(n)) < 2 * n) && (n == 1 ==> Index(n) == 0)
    ensures Index(n) < 32 == CLASSES && (Index(n) == 31 <==> n > 0x4000_0000)
  {
    Pow2Values();
    IndexIsLength(n);
    LeastExponent(n, Index(n));
    LengthAbove30(n - 1, Index(n));
  }

  /** The class Put files a slice of that capacity in */
  function PutClass(size: nat): int
    requires size <= MAX_INT32
  {
    if size != Pow2(Index(size)) then Index(size) - 1 else Index(size)
  }

  /** It is the exponent of the greatest power of two within the capacity: it never underflows, and it
      is never the last class. */
  lemma PutClassIsGreatest(size: nat)
    requires 1 <= size <= 0x7fff_ffff
    ensures 0 <= PutClass(size) < 31
    ensures Pow2(PutClass(size)) <= size < 2 * Pow2(PutClass(size))
  {
    Pow2Values();
    IndexIsLeast(size);
    if size > 1 {
      BitLenBounds(size - 1);
    }
  }

  /** What Get gave goes back to the class it came from, unless that is the last one, from which
      nothing is ever taken back. */
  lemma PutUndoesGet(size: nat)
    requires 1 <= size <= 0x7fff_ffff
    ensures var cap := Pow2(Index(size));
            if size <= 0x4000_0000 then cap <= 0x7fff_ffff && PutClass(cap) == Index(size) else cap > 0x7fff_ffff
  {
    Pow2Values();
    IndexIsLeast(size);
    Pow2Monotone(Index(size), 30);
    if size <= 0x4000_0000 {
      var cap := Pow2(Index(size));
      IndexIsLeast(cap);
      PutClassIsGreatest(cap);
      Pow2Monotone(PutClass(cap) + 1, Index(size));
      Pow2Monotone(Index(size) + 1, PutClass(cap));
    }
  }

  /** usable bytes from offset at of allocation number id */
  datatype Region = Region(id: nat, at: nat, usable: nat)

  datatype Slice = Slice(ptr: Region, len: nat, cap: nat)

  predicate Apart(r: Region, s: Region) {
    r.id != s.id || r.at + r.usable <= s.at || s.at + s.usable <= r.at
  }

  class Pool {
    const pools: array<set<Region>> // each a sync.Pool: an unordered bag of pointers
    var heap: seq<nat>              // the sizes of all allocations so far

    ghost predicate Inside(r: Region)
      reads this
    {
      r.id < |heap| && r.at + r.usable <= heap[r.id]
    }

    /** Each pointer has the bytes its class promises, all its own. */
    ghost predicate Valid()
      reads this, pools
    {
      && pools.Length == CLASSES && pools[CLASSES - 1] == {}
      && (forall i, r :: 0 <= i < CLASSES && r in pools[i] ==> Inside(r) && r.usable >= Pow2(i))
      && (forall i, r, j, s :: 0 <= i < CLASSES && 0 <= j < CLASSES && r in pools[i] && s in pools[j] ==>
            Apart(r, s) || (i == j && r == s))
    }

    /** No byte of r is the pool's. */
    ghost predicate Free(r: Region)
      requires pools.Length == CLASSES
      reads this, pools
    {
      Inside(r) && forall i, s :: 0 <= i < CLASSES && s in pools[i] ==> Apart(r, s)
    }

    constructor ()
      ensures Valid() && fresh(pools) && heap == []
    {
      pools := new set<Region>[CLASSES](_ => {});
      heap := [];
    }

    /** make([]byte, n) */
    method Make(n: nat) returns (ptr: Region)
      requires Valid()
      modifies this
      ensures Valid() && Free(ptr) && ptr.usable == n && heap == old(heap) + [n]
      ensures forall r :: old(Free(r)) ==> Free(r) && Apart(r, ptr)
    {
      ptr := Region(|heap|, 0, n);
      heap := heap + [n];
    }

    /** Get, where hit says whether the class's sync.Pool still has what was put in it. */
    method Get(size: int, hit: bool) returns (buf: Option<Slice>)
      requires Valid()
      modifies this, pools
      ensures Valid() && (buf == None <==> size <= 0)
      ensures buf.Some? ==>
                && buf.value.len == size <= buf.value.cap <= buf.value.ptr.usable && Free(buf.value.ptr)
                && (forall r :: old(Free(r)) ==> Free(r) && Apart(r, buf.value.ptr))
      ensures 1 <= size <= 0x7fff_ffff ==> buf.value.cap == Pow2(Index(size)) < if size == 1 then 2 else 2 * size
      ensures size > 0x7fff_ffff ==> buf.value.cap == size && heap == old(heap) + [size] && pools[..] == old(pools[..])
      ensures 1 <= size <= 0x7fff_ffff ==>
                Index(size) < CLASSES &&
                if hit && old(pools[Index(size)]) != {}
                then buf.value.ptr in old(pools[Index(size)]) && heap == old(heap) &&
                     pools[..] == old(pools[..])[Index(size) := old(pools[..])[Index(size)] - {buf.value.ptr}]
                else heap == old(heap) + [Pow2(Index(size))] && pools[..] == old(pools[..])
    {
      if size <= 0 {
        return None;
      }
      if size > MAX_INT32 {
        var made := Make(size);
        return Some(Slice(made, size, size));
      }
      IndexIsLeast(size);
      var idx := Index(size);
      var ptr;
      if !hit || pools[idx] == {} {
        ptr := Make(Pow2(idx));
      } else {
        ptr := Take(idx);
      }
      buf := Some(Slice(ptr, size, Pow2(idx)));
    }

    /** pools[idx].Get */
    method Take(idx: nat) returns (ptr: Region)
      requires Valid() && idx < CLASSES && pools[idx] != {}
      modifies pools
      ensures Valid() && ptr in old(pools[idx]) && Free(ptr)
      ensures pools[..] == old(pools[..])[idx := old(pools[..])[idx] - {ptr}]
      ensures forall r :: old(Free(r)) ==> Free(r) && Apart(r, ptr)
    {
      ptr :| ptr in pools[idx];
      pools[idx] := pools[idx] - {ptr};
    }

    /** Put of a slice whose bytes are the caller's own, which need not have come from Get. */
    method Put(buf: Slice)
      requires Valid() && buf.cap <= buf.ptr.usable && Free(buf.ptr)
      modifies pools
      ensures Valid()
      ensures buf.cap == 0 || buf.cap > 0x7fff_ffff ==> pools[..] == old(pools[..])
      ensures 1 <= buf.cap <= 0x7fff_ffff ==>
                0 <= PutClass(buf.cap) < CLASSES && Pow2(PutClass(buf.cap)) <= buf.cap < 2 * Pow2(PutClass(buf.cap)) &&
                pools[..] == old(pools[..])[PutClass(buf.cap) := old(pools[..])[PutClass(buf.cap)] + {buf.ptr}]
      ensures forall r :: old(Free(r)) && Apart(r, buf.ptr) ==> Free(r)
    {
      var size := buf.cap;
      if size == 0 || size > MAX_INT32 {
        return;
      }
      PutClassIsGreatest(size);
      var idx := Index(size);
      if size != Pow2(idx) {
        idx := idx - 1;
      }
      File(idx, buf.ptr);
    }

    /** pools[idx].Put */
    method File(idx: nat, ptr: Region)
      requires Valid() && idx < CLASSES - 1 && ptr.usable >= Pow2(idx) && Free(ptr)
      modifies pools
      ensures Valid() && pools[..] == old(pools[..])[idx := old(pools[..])[idx] + {ptr}]
      ensures forall r :: old(Free(r)) && Apart(r, ptr) ==> Free(r)
    {
      ghost var was := pools[..];
      pools[idx] := pools[idx] + {ptr};
      forall i, r, j, s | 0 <= i < CLASSES && 0 <= j < CLASSES && r in pools[i] && s in pools[j]
        ensures Apart(r, s) || (i == j && r == s)
      {
        if r in was[i] && s in was[j] {
          assert Apart(r, s) || (i == j && r == s);
        } else if r in was[i] {
          assert Apart(ptr, r);
        } else if s in was[j] {
          assert Apart(ptr, s);
        }
      }
    }
  }
}
