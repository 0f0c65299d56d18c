/** Bits of Go's integers, seen as numbers: shifts, or, and, length. */
module Bits {

  function Pow2(k: nat): (p: nat)
    ensures p > 0
  {
    if k == 0 then 1 else 2 * Pow2(k - 1)
  }

  /** Bit i of n. */
  predicate Bit(n: nat, i: nat) {
    if i == 0 then n % 2 == 1 else Bit(n / 2, i - 1)
  }

  /** n >> k */
  function Shr(n: nat, k: nat): nat {
    if k == 0 then n else Shr(n / 2, k - 1)
  }

  /** a | b */
  function Or(a: nat, b: nat): nat {
    if a == 0 then b
    else if b == 0 then a
    else 2 * Or(a / 2, b / 2) + if a % 2 == 1 || b % 2 == 1 then 1 else 0
  }

  /** a & b in two's complement */
  function And(a: int, b: int): int
    decreases if a < 0 then -a else a
  {
    if a == 0 then 0
    else if a == -1 then b
    else 2 * And(a / 2, b / 2) + if a % 2 == 1 && b % 2 == 1 then 1 else 0
  }

  /** bits.Len(n): the number of bits needed for n. */
  function BitLen(n: nat): nat {
    if n == 0 then 0 else 1 + BitLen(n / 2)
  }

  predicate IsPow2(p: int) {
    p > 0 && Pow2(BitLen(p) - 1) == p
  }

  lemma {:induction false} Pow2Monotone(a: nat, b: nat)
    ensures a <= b ==> Pow2(a) <= Pow2(b)
    ensures a < b ==> 2 * Pow2(a) <= Pow2(b)
  {
    if a < b {
      Pow2Monotone(a, b - 1);
    }
  }

  lemma {:induction false} BitLenBounds(n: nat)
    requires n > 0
    ensures BitLen(n) > 0 && Pow2(BitLen(n) - 1) <= n < Pow2(BitLen(n))
  {
    if n > 1 {
      BitLenBounds(n / 2);
    }
  }

  lemma BitLenAtMost(n: nat, k: nat)
    requires n < Pow2(k)
    ensures BitLen(n) <= k
  {
    if n > 0 {
      BitLenBounds(n);
      Pow2Monotone(k, BitLen(n) - 1);
    }
  }

  /** The bounds determine the length. */
  lemma BitLenUnique(n: nat, k: nat)
    requires Pow2(k) <= n < Pow2(k + 1)
    ensures BitLen(n) == k + 1
  {
    BitLenBounds(n);
    Pow2Monotone(k + 1, BitLen(n) - 1);
    Pow2Monotone(BitLen(n), k);
  }

  lemma {:induction false} Pow2Sum(a: nat, b: nat)
    ensures Pow2(a + b) == Pow2(a) * Pow2(b)
  {
    if a > 0 { Pow2Sum(a - 1, b); }
  }

  lemma Pow2Values()
    ensures Pow2(12) == 0x1000 && Pow2(16) == 0x1_0000 && Pow2(30) == 0x4000_0000
    ensures Pow2(31) == 0x8000_0000 && Pow2(32) == 0x1_0000_0000 && Pow2(62) == 0x4000_0000_0000_0000
  {
    assert Pow2(4) == 16 && Pow2(8) == 256;
    Pow2Sum(4, 8);
    Pow2Sum(8, 8);
    Pow2Sum(16, 16);
    Pow2Sum(31, 31);
  }

  lemma Pow2IsPow2(k: nat)
    ensures IsPow2(Pow2(k)) && BitLen(Pow2(k)) == k + 1
  {
    BitLenUnique(Pow2(k), k);
  }

  lemma {:induction false} BitOfShr(n: nat, k: nat, i: nat)
    ensures Bit(Shr(n, k), i) == Bit(n, i + k)
    decreases k
  {
    if k > 0 { BitOfShr(n / 2, k - 1, i); }
  }

  lemma {:induction false} BitOfZero(i: nat)
    ensures !Bit(0, i)
  {
    if i > 0 { BitOfZero(i - 1); }
  }

  lemma {:induction false} BitOfOr(a: nat, b: nat, i: nat)
    ensures Bit(Or(a, b), i) == (Bit(a, i) || Bit(b, i))
    decreases i
  {
    if a == 0 || b == 0 {
      BitOfZero(i);
    } else if i > 0 {
      BitOfOr(a / 2, b / 2, i - 1);
    }
  }

  /** The leading bit. */
  lemma {:induction false} TopBit(n: nat, i: nat)
    ensures n > 0 ==> Bit(n, BitLen(n) - 1)
    ensures i >= BitLen(n) ==> !Bit(n, i)
    decreases n
  {
    if n == 0 {
      BitOfZero(i);
    } else if n > 1 {
      TopBit(n / 2, if i > 0 then i - 1 else 0);
    } else if i > 0 {
      BitOfZero(i - 1);
    }
  }

  ghost predicate Ones(x: nat, k: nat) {
    forall i: nat :: i < k ==> Bit(x, i)
  }

  lemma OnesStep(x: nat, k: nat)
    requires k > 0
    ensures Ones(x, k) <==> x % 2 == 1 && Ones(x / 2, k - 1)
  {
    if Ones(x, k) {
      assert Bit(x, 0);
      forall i: nat | i < k - 1 ensures Bit(x / 2, i) { assert Bit(x, i + 1); }
    } else if x % 2 == 1 {
      var i: nat :| i < k && !Bit(x, i);
      assert !Bit(x / 2, i - 1);
    }
  }

  /** A number is all ones up to its length exactly when it is one less than a power of two. */
  lemma {:induction false} AllOnes(x: nat, k: nat)
    requires x < Pow2(k)
    ensures x == Pow2(k) - 1 <==> Ones(x, k)
    decreases k
  {
    if k == 0 {
    } else {
      OnesStep(x, k);
      AllOnes(x / 2, k - 1);
    }
  }

  /** A number without bits from k on is below 2^k. */
  lemma {:induction false} NoHighBits(x: nat, k: nat)
    requires forall i :: k <= i ==> !Bit(x, i)
    ensures x < Pow2(k)
  {
    TopBit(x, 0);
    if x == 0 {
    } else {
      BitLenBounds(x);
      Pow2Monotone(BitLen(x), k);
    }
  }

  lemma {:induction false} AndSelf(a: int)
    ensures And(a, a) == a
    decreases if a < 0 then -a else a
  {
    if a != 0 && a != -1 { AndSelf(a / 2); }
  }

  /** n & 2^k picks bit k. */
  lemma {:induction false} AndPow2(n: nat, k: nat)
    ensures And(n, Pow2(k)) == if Bit(n, k) then Pow2(k) else 0
    decreases k
  {
    if n == 0 {
      BitOfZero(k);
    } else if k > 0 {
      AndPow2(n / 2, k - 1);
      assert Pow2(k) / 2 == Pow2(k - 1);
    } else {
      AndZero(n / 2);
    }
  }

  lemma {:induction false} AndZero(a: int)
    ensures And(a, 0) == 0
    decreases if a < 0 then -a else a
  {
    if a != 0 && a != -1 { AndZero(a / 2); }
  }
}
