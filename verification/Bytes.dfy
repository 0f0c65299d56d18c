/** Bytes, and Go's built-in copy. */
module Bytes {
  type byte = x: int | 0 <= x < 256

  function Min(a: int, b: int): int { if a <= b then a else b }

  function Max(a: int, b: int): int { if a >= b then a else b }

  /** data with src written over it at position at. */
  function Splice(data: seq<byte>, at: nat, src: seq<byte>): seq<byte>
    requires at + |src| <= |data|
  {
    seq(|data|, i requires 0 <= i < |data| => if at <= i < at + |src| then src[i - at] else data[i])
  }

  lemma SpliceTwice(data: seq<byte>, at: nat, a: seq<byte>, b: seq<byte>)
    requires at + |a| + |b| <= |data|
    ensures Splice(Splice(data, at, a), at + |a|, b) == Splice(data, at, a + b)
  {
  }

  lemma SplicedFront(data: seq<byte>, src: seq<byte>)
    requires |src| <= |data|
    ensures Splice(data, 0, src)[..|src|] == src && src[..|src|] == src
  {
  }

  /** copy(dst[at:], src), where src fits. */
  method Copy(dst: array<byte>, at: nat, src: seq<byte>)
    requires at + |src| <= dst.Length
    modifies dst
    ensures dst[..] == Splice(old(dst[..]), at, src)
  {
    forall i | 0 <= i < |src| {
      dst[at + i] := src[i];
    }
  }

  lemma Associate<T>(a: seq<T>, b: seq<T>, c: seq<T>)
    ensures (a + b) + c == a + (b + c)
  {
  }

  lemma EmptyLeft<T>(a: seq<T>)
    ensures [] + a == a
  {
  }

  /** The concatenation of chunks. */
  function Flatten(chunks: seq<seq<byte>>): seq<byte> {
    if chunks == [] then [] else chunks[0] + Flatten(chunks[1..])
  }

  lemma {:induction false} FlattenConcat(a: seq<seq<byte>>, b: seq<seq<byte>>)
    ensures Flatten(a + b) == Flatten(a) + Flatten(b)
  {
    if a == [] {
      assert a + b == b;
    } else {
      FlattenConcat(a[1..], b);
      assert (a + b)[0] == a[0] && (a + b)[1..] == a[1..] + b;
      Associate(a[0], Flatten(a[1..]), Flatten(b));
    }
  }

  lemma FlattenOne(c: seq<byte>)
    ensures Flatten([c]) == c
  {
    assert [c][1..] == [];
  }

  lemma FlattenAppend(a: seq<seq<byte>>, c: seq<byte>)
    ensures Flatten(a + [c]) == Flatten(a) + c
  {
    FlattenConcat(a, [c]);
    FlattenOne(c);
  }

  /** One more chunk. */
  lemma FlattenSnoc(bs: seq<seq<byte>>, i: nat)
    requires 0 < i <= |bs|
    ensures Flatten(bs[..i]) == Flatten(bs[..i - 1]) + bs[i - 1]
  {
    assert bs[..i] == bs[..i - 1] + [bs[i - 1]];
    FlattenAppend(bs[..i - 1], bs[i - 1]);
  }

  lemma FlattenSplit(bs: seq<seq<byte>>, i: nat)
    requires i <= |bs|
    ensures Flatten(bs) == Flatten(bs[..i]) + Flatten(bs[i..])
  {
    FlattenConcat(bs[..i], bs[i..]);
    assert bs[..i] + bs[i..] == bs;
  }
}
