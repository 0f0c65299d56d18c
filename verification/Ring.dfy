/** pkg/buffer/ring/ring_buffer.go: the circular buffer. */
module Ring {
  import opened Bits
  import opened Bytes
  import opened Wrappers
  import opened PowerOfTwo

  const DEFAULT_BUFFER_SIZE := 1024
  const BUFFER_GROW_THRESHOLD := 4096

  datatype Error = NoError | ErrIsEmpty

  /** What grow's loop reaches: the first of n, n + n/4, ... that is at least need. */
  function QuarterSteps(n: nat, need: nat): (cap: nat)
    requires n >= BUFFER_GROW_THRESHOLD
    ensures n <= cap && need <= cap
    ensures n < need ==> cap <= need + need / 4 && 5 * cap >= 6 * n
    ensures n < need <= n + n / 4 ==> cap == n + n / 4
    decreases need - n
  {
    if n >= need then n else QuarterSteps(n + n / 4, need)
  }

  /** cap is the capacity grow gives a buffer of capacity n when asked for need. */
  ghost predicate Grown(n: nat, need: nat, cap: nat) {
    if n == 0 && need <= DEFAULT_BUFFER_SIZE then cap == DEFAULT_BUFFER_SIZE
    else if n == 0 then CeilToPowerOfTwo(need) == Some(cap)
    else if need > 2 * n then cap == need
    else if n < BUFFER_GROW_THRESHOLD then cap == 2 * n
    else cap == QuarterSteps(n, need)
  }

  /** Asked for more than it has, a buffer gets what it needs and at most twice as much (or 1024), and at
      least a fifth more than it had; below 4096 bytes it is doubled if that is enough, above it grows by
      quarters. */
  lemma GrownBounds(n: nat, need: nat, cap: nat)
    requires Grown(n, need, cap) && (n == 0 ==> need <= MAXINT_HEAD_BIT)
    ensures n <= cap
    ensures need > n ==> need <= cap <= Max(1024, 2 * need) && 6 * n <= 5 * cap
    ensures n == 0 && need <= 1024 ==> cap == 1024
    ensures n == 0 && need > 1024 ==> CeilToPowerOfTwo(need) == Some(cap)
    ensures 0 < n < 4096 && need <= 2 * n ==> cap == 2 * n
    ensures 0 < n && need > 2 * n ==> cap == need
    ensures n >= 4096 && n < need <= n + n / 4 ==> cap == n + n / 4
    ensures n >= 4096 && need <= n ==> cap == n
  {
    if n == 0 && need > 1024 {
      CeilPanics(need);
      CeilExactly(need);
    }
  }

  /** r + i, going round at size. */
  function Index(r: nat, i: nat, size: nat): nat {
    if r + i < size then r + i else r + i - size
  }

  lemma Around(r: nat, n: nat, size: nat)
    requires r < size && n <= size
    ensures (r + n) % size == Index(r, n, size)
  {
    var q := (r + n) / size;
    assert r + n == q * size + (r + n) % size;
    assert (q - 1) * size == r + n - (r + n) % size - size < size;
  }

  /** How many bytes lie from r up to w, going round; all of them when r == w. */
  function Count(r: nat, w: nat, size: nat): nat
    requires r < size
  {
    if w > r then w - r else size - r + w
  }

  /** The bytes held by a buffer that is not empty, oldest first. */
  function Window(data: seq<byte>, r: nat, w: nat): (c: seq<byte>)
    requires r < |data| && w < |data|
  {
    seq(Count(r, w, |data|), i requires 0 <= i < Count(r, w, |data|) => data[Index(r, i, |data|)])
  }

  /** Advancing r by k drops the k oldest bytes. */
  lemma Advance(data: seq<byte>, r: nat, w: nat, k: nat)
    requires r < |data| && w < |data| && k <= Count(r, w, |data|)
    ensures var r' := Index(r, k, |data|);
            && (k < Count(r, w, |data|) ==> Window(data, r', w) == Window(data, r, w)[k..])
            && (k == Count(r, w, |data|) ==> r' == w)
            && (0 < k < Count(r, w, |data|) ==> r' != w)
  {
  }

  /** A window is one slice of data, or two. */
  lemma Slices(data: seq<byte>, r: nat, w: nat, m: nat)
    requires r < |data| && w < |data| && m <= Count(r, w, |data|)
    ensures Window(data, r, w)[..m] ==
            if r + m <= |data| then data[r..r + m] else data[r..] + data[..m - (|data| - r)]
  {
  }

  /** Writing p behind was, round the end of data if need be, makes the window was + p. */
  lemma Extend(data: seq<byte>, r: nat, was: seq<byte>, p: seq<byte>, data': seq<byte>, w': nat)
    requires r < |data| == |data'| && |was| + |p| <= |data| && w' < |data|
    requires forall i :: 0 <= i < |was| ==> was[i] == data[Index(r, i, |data|)]
    requires forall i :: 0 <= i < |was| ==> data'[Index(r, i, |data|)] == data[Index(r, i, |data|)]
    requires forall i :: 0 <= i < |p| ==> data'[Index(Index(r, |was|, |data|), i, |data|)] == p[i]
    requires p != [] && w' == Index(r, |was| + |p|, |data|)
    ensures Window(data', r, w') == was + p
  {
    forall i | 0 <= i < |was| + |p|
      ensures data'[Index(r, i, |data|)] == (was + p)[i]
    {
      if i >= |was| { assert Index(r, i, |data|) == Index(Index(r, |was|, |data|), i - |was|, |data|); }
    }
  }

  /** p is behind the count bytes from r on, going round, and these are as they were. */
  ghost predicate CopiedIn(data: seq<byte>, r: nat, count: nat, p: seq<byte>, data': seq<byte>)
    requires r < |data| == |data'| && count + |p| <= |data|
  {
    && (forall i :: 0 <= i < count ==> data'[Index(r, i, |data|)] == data[Index(r, i, |data|)])
    && (p != [] ==> forall i :: 0 <= i < |p| ==> data'[Index(Index(r, count, |data|), i, |data|)] == p[i])
  }

  lemma CopiedOnce(data: seq<byte>, r: nat, count: nat, p: seq<byte>)
    requires r < |data| && count + |p| <= |data| && p != []
    requires Index(r, count, |data|) + |p| <= |data|
    ensures CopiedIn(data, r, count, p, Splice(data, Index(r, count, |data|), p))
  {
  }

  lemma CopiedTwice(data: seq<byte>, r: nat, count: nat, p: seq<byte>, c1: nat)
    requires r < |data| && count + |p| <= |data| && c1 == |data| - Index(r, count, |data|) < |p|
    ensures CopiedIn(data, r, count, p, Splice(Splice(data, Index(r, count, |data|), p[..c1]), 0, p[c1..]))
  {
  }

  class Buffer {
    ghost var Contents: seq<byte> // the bytes held, oldest first
    ghost var copied: nat         // bytes moved by grow so far

    var buf: array<byte>
    var size: nat
    var r: nat // next position to read
    var w: nat // next position to write
    var isEmpty: bool

    ghost predicate Valid()
      reads this, buf
    {
      && buf.Length == size
      && (size == 0 ==> isEmpty && r == 0 && w == 0)
      && (size > 0 ==> r < size && w < size)
      && (isEmpty ==> r == w)
      && Contents == (if isEmpty then [] else Window(buf[..], r, w))
      && copied <= 5 * size
    }

    /** New */
    constructor (n: int)
      requires IsInt(n) && n <= MAXINT_HEAD_BIT
      ensures Valid() && fresh(buf) && Contents == [] && copied == 0
      ensures n == 0 ==> size == 0
      ensures n != 0 ==> CeilToPowerOfTwo(n) == Some(size) && n <= size && size >= 2
    {
      CeilPanics(n);
      CeilExactly(n);
      var s: nat := if n == 0 then 0 else CeilToPowerOfTwo(n).value;
      buf := new byte[s];
      size, r, w, isEmpty, copied, Contents := s, 0, 0, true, 0, [];
    }

    function Buffered(): (n: nat)
      requires Valid()
      reads this, buf
      ensures n == |Contents| <= size
    {
      if r == w then if isEmpty then 0 else size
      else if w > r then w - r
      else size - r + w
    }

    function Available(): (n: nat)
      requires Valid()
      reads this, buf
      ensures n + |Contents| == size
    {
      if r == w then if isEmpty then size else 0
      else if w < r then r - w
      else size - w + r
    }

    predicate IsFull()
      requires Valid()
      reads this, buf
      ensures IsFull() <==> |Contents| == size > 0
    {
      r == w && !isEmpty
    }

    /** IsEmpty */
    predicate Empty()
      requires Valid()
      reads this, buf
      ensures Empty() <==> Contents == []
    {
      isEmpty
    }

    /** head and tail are the first n bytes (all when n <= 0), split where the array ends. */
    method Peek(n: int) returns (head: seq<byte>, tail: seq<byte>)
      requires Valid()
      ensures head + tail == if n <= 0 || n >= |Contents| then Contents else Contents[..n]
      ensures tail != [] ==> |head| == size - r
    {
      head, tail := [], [];
      if isEmpty {
        return;
      }
      if n <= 0 {
        head, tail := PeekAll();
        return;
      }
      if w > r {
        var m := Min(w - r, n);
        Slices(buf[..], r, w, m);
        head := buf[r..r + m];
        return;
      }
      var m := Min(size - r + w, n);
      Slices(buf[..], r, w, m);
      if r + m <= size {
        head := buf[r..r + m];
      } else {
        head := buf[r..];
        tail := buf[..m - (size - r)];
      }
    }

    method PeekAll() returns (head: seq<byte>, tail: seq<byte>)
      requires Valid()
      ensures head + tail == Contents
      ensures tail != [] ==> |head| == size - r
    {
      head, tail := [], [];
      if isEmpty {
        return;
      }
      Slices(buf[..], r, w, |Contents|);
      if w > r {
        head := buf[r..w];
        return;
      }
      head := buf[r..];
      if w != 0 {
        tail := buf[..w];
      }
    }

    /** Bytes */
    method All() returns (bb: seq<byte>)
      requires Valid()
      ensures bb == Contents
    {
      if isEmpty {
        return [];
      }
      Slices(buf[..], r, w, |Contents|);
      if w == r {
        bb := buf[r..];
        bb := bb + buf[..w];
        return;
      }
      if w > r {
        return buf[r..w];
      }
      bb := buf[r..];
      if w != 0 {
        bb := bb + buf[..w];
      }
    }

    method Reset()
      requires buf.Length == size && copied <= 5 * size
      modifies this
      ensures Valid() && Contents == []
      ensures buf == old(buf) && size == old(size) && copied == old(copied)
    {
      isEmpty := true;
      r, w := 0, 0;
      Contents := [];
    }

    method Discard(n: int) returns (discarded: nat)
      requires Valid()
      modifies this
      ensures Valid() && buf == old(buf) && size == old(size) && copied == old(copied)
      ensures discarded == Max(0, Min(n, old(|Contents|)))
      ensures Contents == old(Contents)[discarded..]
    {
      if n <= 0 {
        return 0;
      }
      discarded := Buffered();
      if n < discarded {
        Advance(buf[..], r, w, n);
        Around(r, n, size);
        r := (r + n) % size;
        Contents := Contents[n..];
        return n;
      }
      Reset();
    }

    /** The copies of Read: the n oldest bytes go to p[from:], in two pieces if they go round. */
    method CopyOut(p: array<byte>, from: nat, n: nat)
      requires Valid() && p != buf && !isEmpty && n <= |Contents| && from + n <= p.Length
      modifies p
      ensures p[..] == Splice(old(p[..]), from, Contents[..n])
    {
      Slices(buf[..], r, w, n);
      if r + n <= size {
        Copy(p, from, buf[r..r + n]);
      } else {
        var c1 := size - r;
        SpliceTwice(p[..], from, buf[r..], buf[..n - c1]);
        Copy(p, from, buf[r..]);
        Copy(p, from + c1, buf[..n - c1]);
      }
    }

    /** The end of Read: r advances past n bytes, and the buffer is reset if it caught up with w. */
    method Skip(n: nat)
      requires Valid() && 0 < n <= |Contents|
      modifies this
      ensures Valid() && buf == old(buf) && size == old(size) && copied == old(copied)
      ensures Contents == old(Contents)[n..]
    {
      Around(r, n, size);
      MoveTo(n, if w > r then r + n else (r + n) % size);
    }

    /** n bytes are read, and the next is at next: none, if that is where w is. */
    method MoveTo(n: nat, next: nat)
      requires Valid() && 0 < n <= |Contents| && next == Index(r, n, size)
      modifies this
      ensures Valid() && buf == old(buf) && size == old(size) && copied == old(copied)
      ensures Contents == old(Contents)[n..]
    {
      Advance(buf[..], r, w, n);
      r := next;
      Contents := Contents[n..];
      if r == w {
        Reset();
      }
    }

    /** Read into p[from:]. */
    method Read(p: array<byte>, from: nat) returns (n: nat, err: Error)
      requires Valid() && p != buf && from <= p.Length
      modifies this, p
      ensures Valid() && buf == old(buf) && size == old(size) && copied == old(copied)
      ensures n == Min(p.Length - from, old(|Contents|))
      ensures p[..] == Splice(old(p[..]), from, old(Contents)[..n])
      ensures Contents == old(Contents)[n..]
      ensures err == if from < p.Length && old(Contents) == [] then ErrIsEmpty else NoError
    {
      n, err := 0, NoError;
      var len := p.Length - from;
      if len == 0 {
        return;
      }
      if isEmpty {
        return 0, ErrIsEmpty;
      }
      n := Min(if w > r then w - r else size - r + w, len);
      CopyOut(p, from, n);
      Skip(n);
    }

    method ReadByte() returns (b: byte, err: Error)
      requires Valid()
      modifies this
      ensures Valid() && buf == old(buf) && size == old(size) && copied == old(copied)
      ensures old(Contents) == [] ==> err == ErrIsEmpty && Contents == []
      ensures old(Contents) != [] ==>
                err == NoError && b == old(Contents)[0] && Contents == old(Contents)[1..]
    {
      if isEmpty {
        return 0, ErrIsEmpty;
      }
      b, err := buf[r], NoError;
      var next := r + 1;
      if next == size {
        next := 0;
      }
      MoveTo(1, next);
    }

    /** The capacity grow settles on when asked for newCap. */
    method GrownCap(newCap: nat) returns (cap: nat)
      requires 1 <= newCap && (size == 0 ==> newCap <= MAXINT_HEAD_BIT)
      ensures Grown(size, newCap, cap)
    {
      cap := newCap;
      var n := size;
      if n == 0 {
        if cap <= DEFAULT_BUFFER_SIZE {
          cap := DEFAULT_BUFFER_SIZE;
        } else {
          CeilPanics(cap);
          CeilExactly(cap);
          cap := CeilToPowerOfTwo(cap).value;
        }
      } else {
        var doubleCap := n + n;
        if cap <= doubleCap {
          if n < BUFFER_GROW_THRESHOLD {
            cap := doubleCap;
          } else {
            while 0 < n && n < cap
              invariant n >= size
              invariant QuarterSteps(n, newCap) == QuarterSteps(size, newCap)
              decreases cap - n
            {
              n := n + n / 4;
            }
            if n > 0 {
              cap := n;
            }
          }
        }
      }
    }

    /** Leaves the contents at the front of a new array. w is size, beyond the array, when the new
        array is full: the caller must not have asked for less than it needs. */
    method Grow(newCap: nat)
      requires Valid() && 1 <= newCap && (size == 0 ==> newCap <= MAXINT_HEAD_BIT)
      modifies this
      ensures buf.Length == size && fresh(buf) && Grown(old(size), newCap, size)
      ensures Contents == old(Contents) && r == 0 && w == |Contents| <= size && buf[..w] == Contents
      ensures isEmpty <==> Contents == []
      ensures copied == old(copied) + w
    {
      var cap := GrownCap(newCap);
      GrownBounds(size, newCap, cap);
      var oldLen := Buffered();
      ghost var was := Contents;
      var newBuf := MoveOut(cap);
      buf := newBuf;
      r := 0;
      w := oldLen;
      size := cap;
      Contents := was;
      copied := copied + oldLen;
      if w > 0 {
        isEmpty := false;
      }
    }

    /** All the contents are read into a new array. */
    method MoveOut(cap: nat) returns (newBuf: array<byte>)
      requires Valid() && |Contents| <= cap
      modifies this
      ensures Valid() && Contents == [] && copied == old(copied) && fresh(newBuf) && newBuf.Length == cap
      ensures newBuf[..old(|Contents|)] == old(Contents)
    {
      newBuf := new byte[cap];
      SplicedFront(newBuf[..], Contents);
      var _, _ := Read(newBuf, 0);
    }

    /** grow as Write calls it: there is room afterwards. */
    method GrowForWrite(newCap: nat)
      requires Valid() && size < newCap && (size == 0 ==> newCap <= MAXINT_HEAD_BIT)
      modifies this
      ensures Valid() && fresh(buf) && Grown(old(size), newCap, size) && newCap <= size
      ensures Contents == old(Contents) && copied == old(copied) + |Contents|
    {
      Grow(newCap);
      GrownBounds(old(size), newCap, size);
    }

    /** Write, when p fits. */
    method Append(p: seq<byte>)
      requires Valid() && 0 < |p| <= size - |Contents|
      modifies this, buf
      ensures Valid() && buf == old(buf) && size == old(size) && copied == old(copied)
      ensures Contents == old(Contents) + p
    {
      ghost var data := buf[..];
      w := CopyIn(p);
      isEmpty := false;
      Extend(data, r, Contents, p, buf[..], w);
      Contents := Contents + p;
    }

    /** w is where the contents end. */
    lemma EndsAt()
      requires Valid() && |Contents| < size
      ensures w == Index(r, |Contents|, size) && (w < r ==> |Contents| == size - r + w)
    {
    }

    /** Its copies: p behind the contents, whose bytes stay. Gives the next position to write. */
    method CopyIn(p: seq<byte>) returns (next: nat)
      requires Valid() && 0 < |p| <= size - |Contents|
      modifies buf
      ensures next == Index(r, |Contents| + |p|, size) < size
      ensures CopiedIn(old(buf[..]), r, |Contents|, p, buf[..])
    {
      EndsAt();
      next := CopyTo(p, |Contents|);
    }

    method CopyTo(p: seq<byte>, ghost count: nat) returns (next: nat)
      requires buf.Length == size && r < size && w == Index(r, count, size) && 0 < |p| <= size - count
      requires w < r ==> count == size - r + w
      modifies buf
      ensures next == Index(r, count + |p|, size) < size
      ensures CopiedIn(old(buf[..]), r, count, p, buf[..])
    {
      var n := |p|;
      next := w + n;
      if w >= r {
        var c1 := size - w;
        if c1 >= n {
          CopiedOnce(buf[..], r, count, p);
          Copy(buf, w, p);
        } else {
          CopiedTwice(buf[..], r, count, p, c1);
          Copy(buf, w, p[..c1]);
          Copy(buf, 0, p[c1..]);
          next := n - c1;
        }
      } else {
        CopiedOnce(buf[..], r, count, p);
        Copy(buf, w, p);
      }
      if next == size {
        next := 0;
      }
    }

    /** Afterwards the buffer holds p behind what it held. It grows only if p does not fit, and then
        to no more than twice what is needed (or the default size). */
    method Write(p: seq<byte>) returns (n: nat)
      requires Valid() && |p| <= MAXINT_HEAD_BIT
      modifies this, buf
      ensures Valid() && (buf == old(buf) || fresh(buf))
      ensures n == |p| && Contents == old(Contents) + p
      ensures old(|Contents|) + |p| <= old(size) ==> size == old(size) && copied == old(copied)
      ensures old(|Contents|) + |p| > old(size) ==>
                Grown(old(size), old(|Contents|) + |p|, size) && copied == old(copied) + old(|Contents|)
      ensures old(size) == 0 && p != [] ==>
                if |p| <= 1024 then size == 1024 else CeilToPowerOfTwo(|p|) == Some(size)
    {
      n := |p|;
      if n == 0 {
        return;
      }
      ghost var need := |Contents| + n;
      var free := Available();
      if n > free {
        assert size + n - free == need;
        GrowForWrite(size + n - free);
      }
      Append(p);
    }

    /** Panics, with an index out of range, exactly when the buffer is full and too large to be
        doubled: grow(1) then returns an array no larger than before. */
    method WriteByte(c: byte) returns (panics: bool)
      requires Valid()
      modifies this, buf
      ensures panics <==> old(|Contents|) == old(size) >= 4096
      ensures size == if old(|Contents|) < old(size) || old(size) >= 4096 then old(size)
                      else if old(size) == 0 then 1024 else 2 * old(size)
      ensures !panics ==> Valid() && (buf == old(buf) || fresh(buf)) && Contents == old(Contents) + [c]
      ensures copied == old(copied) + if old(|Contents|) == old(size) then old(|Contents|) else 0
    {
      var free := Available();
      if free < 1 {
        Grow(1);
        GrownBounds(old(size), 1, size);
      }
      if w >= buf.Length {
        return true;
      }
      PutByte(c);
      return false;
    }

    /** The end of WriteByte, when there is room. */
    method PutByte(c: byte)
      requires Valid() && |Contents| < size
      modifies this, buf
      ensures Valid() && buf == old(buf) && copied == old(copied) && Contents == old(Contents) + [c]
    {
      ghost var data := buf[..];
      buf[w] := c;
      w := w + 1;
      if w == size {
        w := 0;
      }
      isEmpty := false;
      Extend(data, r, Contents, [c], buf[..], w);
      Contents := Contents + [c];
    }
  }

  /** A ring of 4096 bytes, or another power of two up to 2^32, filled: WriteByte panics. */
  method FullRingPanics(k: nat, b: byte, c: byte) returns (panics: bool)
    requires 12 <= k <= 32
    ensures panics
  {
    var n := Pow2(k);
    Pow2Values();
    Pow2Monotone(12, k);
    Pow2Monotone(k, 32);
    CeilOfPower(n, k);
    var rb := new Buffer(n);
    var _ := rb.Write(seq(n, _ => b));
    panics := rb.WriteByte(c);
  }
}
