/** internal/math/math.go, for 64-bit int. */
module PowerOfTwo {
  import opened Bits
  import opened Wrappers

  const MIN_INT := -0x8000_0000_0000_0000
  const MAX_INT := 0x7fff_ffff_ffff_ffff
  const MAXINT_HEAD_BIT := 0x4000_0000_0000_0000

  predicate IsInt(n: int) { MIN_INT <= n <= MAX_INT }

  function Int64(x: int): int {
    (x + 0x8000_0000_0000_0000) % 0x1_0000_0000_0000_0000 - 0x8000_0000_0000_0000
  }

  predicate IsPowerOfTwo(n: int) {
    And(n, Int64(n - 1)) == 0
  }

  /** The five shift-or rounds shared by CeilToPowerOfTwo and FloorToPowerOfTwo. */
  function Smear(n: nat): nat {
    var n := Or(n, Shr(n, 1));
    var n := Or(n, Shr(n, 2));
    var n := Or(n, Shr(n, 4));
    var n := Or(n, Shr(n, 8));
    Or(n, Shr(n, 16))
  }

  /** None is the panic. */
  function CeilToPowerOfTwo(n: int): Option<int> {
    if And(n, MAXINT_HEAD_BIT) != 0 && n > MAXINT_HEAD_BIT then None
    else if n <= 2 then Some(2)
    else Some(Smear(n - 1) + 1)
  }

  function FloorToPowerOfTwo(n: int): int {
    if n <= 2 then n
    else
      var x := Smear(n);
      x - Shr(x, 1)
  }

  function ClosestPowerOfTwo(n: int): Option<int> {
    match CeilToPowerOfTwo(n)
    case None => None
    case Some(next) => Some(Nearer(n, next))
  }

  function Nearer(n: int, next: int): int {
    var prev := next / 2;
    if Int64(n - prev) < Int64(next - n) then prev else next
  }

  // ---------------------------------------------------------------------------------------------
  // Smearing

  /** n has a bit among the w bits from i on. */
  ghost predicate AnyBit(n: nat, i: nat, w: nat) {
    exists j :: i <= j < i + w && Bit(n, j)
  }

  /** No 32 zeros in a row below the leading bit of n. */
  ghost predicate NoGap(n: nat) {
    forall i: nat :: i < BitLen(n) ==> AnyBit(n, i, 32)
  }

  ghost predicate Spread(n: nat, x: nat, w: nat) {
    forall i: nat :: Bit(x, i) <==> AnyBit(n, i, w)
  }

  lemma SpreadRound(n: nat, x: nat, w: nat)
    requires Spread(n, x, w)
    ensures Spread(n, Or(x, Shr(x, w)), 2 * w)
  {
    forall i: nat
      ensures Bit(Or(x, Shr(x, w)), i) <==> AnyBit(n, i, 2 * w)
    {
      BitOfOr(x, Shr(x, w), i);
      BitOfShr(x, w, i);
      if AnyBit(n, i, 2 * w) {
        var j :| i <= j < i + 2 * w && Bit(n, j);
        assert if j < i + w then AnyBit(n, i, w) else AnyBit(n, i + w, w);
      }
    }
  }

  /** Bit i of the result says whether n has a bit among the 32 from i on. */
  lemma SmearSpreads(n: nat)
    ensures Spread(n, Smear(n), 32)
  {
    assert Spread(n, n, 1) by {
      forall i: nat ensures Bit(n, i) <==> AnyBit(n, i, 1) {}
    }
    var x := n;
    SpreadRound(n, x, 1);
    x := Or(x, Shr(x, 1));
    SpreadRound(n, x, 2);
    x := Or(x, Shr(x, 2));
    SpreadRound(n, x, 4);
    x := Or(x, Shr(x, 4));
    SpreadRound(n, x, 8);
    x := Or(x, Shr(x, 8));
    SpreadRound(n, x, 16);
  }

  /** Smearing keeps the length, and fills n with ones exactly when n has no gap. */
  lemma SmearFills(n: nat)
    requires n > 0
    ensures Smear(n) < Pow2(BitLen(n))
    ensures Smear(n) == Pow2(BitLen(n)) - 1 <==> NoGap(n)
  {
    SmearSpreads(n);
    var x, k := Smear(n), BitLen(n);
    forall i | k <= i ensures !Bit(x, i) {
      forall j | i <= j < i + 32 ensures !Bit(n, j) { TopBit(n, j); }
    }
    NoHighBits(x, k);
    AllOnes(x, k);
    assert Ones(x, k) <==> NoGap(n);
  }

  lemma ShortHasNoGap(n: nat)
    requires BitLen(n) <= 32
    ensures NoGap(n)
  {
    TopBit(n, 0);
    forall i: nat | i < BitLen(n) ensures AnyBit(n, i, 32) {
      assert i <= BitLen(n) - 1 < i + 32;
    }
  }

  lemma NoGapBelow32Bits(n: nat)
    requires n < 0x1_0000_0000
    ensures NoGap(n)
  {
    Pow2Values();
    BitLenAtMost(n, 32);
    ShortHasNoGap(n);
  }

  // ---------------------------------------------------------------------------------------------
  // What the functions compute, and exactly when

  ghost predicate LeastPowerFrom(p: int, n: int) {
    IsPow2(p) && p >= n && forall k: nat :: Pow2(k) >= n ==> Pow2(k) >= p
  }

  ghost predicate GreatestPowerTo(p: int, n: int) {
    IsPow2(p) && p <= n && forall k: nat :: Pow2(k) <= n ==> Pow2(k) <= p
  }

  /** No power of two is nearer to n than p, and of two equally near p is the greater. */
  ghost predicate NearestPower(p: int, n: int) {
    IsPow2(p) && forall k: nat :: Abs(Pow2(k) - n) > Abs(p - n) || (Abs(Pow2(k) - n) == Abs(p - n) && Pow2(k) <= p)
  }

  function Abs(x: int): nat { if x < 0 then -x else x }

  lemma LeastPowerIs(n: int)
    requires n >= 2
    ensures LeastPowerFrom(Pow2(BitLen(n - 1)), n)
  {
    var b := BitLen(n - 1);
    BitLenBounds(n - 1);
    Pow2IsPow2(b);
    forall k: nat | Pow2(k) >= n ensures Pow2(k) >= Pow2(b) {
      Pow2Monotone(k, b - 1);
      Pow2Monotone(b, k);
    }
  }

  lemma GreatestPowerIs(n: int)
    requires n >= 1
    ensures GreatestPowerTo(Pow2(BitLen(n) - 1), n)
  {
    var b := BitLen(n) - 1;
    BitLenBounds(n);
    Pow2IsPow2(b);
    forall k: nat | Pow2(k) <= n ensures Pow2(k) <= Pow2(b) {
      Pow2Monotone(b + 1, k);
      Pow2Monotone(k, b);
    }
  }

  /** The panic is for arguments above 2^62, and for nothing else. */
  lemma CeilPanics(n: int)
    requires IsInt(n)
    ensures CeilToPowerOfTwo(n).None? <==> n > MAXINT_HEAD_BIT
  {
    if n > MAXINT_HEAD_BIT {
      Pow2Values();
      assert Pow2(63) == 2 * Pow2(62);
      BitLenUnique(n, 62);
      TopBit(n, 0);
      AndPow2(n, 62);
    }
  }

  /** CeilToPowerOfTwo gives the least power of two at or above n exactly when n is at least 2 and
      n - 1 has no 32 zeros in a row below its leading bit: for every n up to 2^32, and not for
      2^32 + 1. Below 2 it gives 2. */
  lemma CeilExactly(n: int)
    requires IsInt(n) && n <= MAXINT_HEAD_BIT
    ensures LeastPowerFrom(CeilToPowerOfTwo(n).value, n) <==> n >= 2 && NoGap(n - 1)
    ensures 2 <= n <= 0x1_0000_0000 ==> NoGap(n - 1)
    ensures !NoGap(0x1_0000_0000)
    ensures n < 2 ==> CeilToPowerOfTwo(n).value == 2
    ensures n >= 2 ==> n <= CeilToPowerOfTwo(n).value <= Pow2(BitLen(n - 1)) < 2 * n
  {
    CeilPanics(n);
    GapAt32();
    if n < 2 {
      Pow2IsPow2(0);
      assert Pow2(0) == 1;
    } else {
      LeastPowerIs(n);
      if n <= 0x1_0000_0000 { NoGapBelow32Bits(n - 1); }
      if n == 2 {
        assert BitLen(1) == 1;
      } else {
        SmearFills(n - 1);
        SmearGrows(n - 1);
        BitLenBounds(n - 1);
      }
    }
  }

  lemma LeastPowerOfPower(p: int, k: nat)
    requires LeastPowerFrom(p, Pow2(k))
    ensures p == Pow2(k)
  {
  }

  lemma CeilOfPower(n: int, k: nat)
    requires 2 <= n <= 0x1_0000_0000 && n == Pow2(k)
    ensures CeilToPowerOfTwo(n) == Some(n)
  {
    CeilPanics(n);
    CeilExactly(n);
    LeastPowerOfPower(CeilToPowerOfTwo(n).value, k);
  }

  lemma GapAt32()
    ensures BitLen(0x1_0000_0000) == 33 && !NoGap(0x1_0000_0000)
  {
    Pow2Values();
    assert Pow2(33) == 2 * Pow2(32);
    BitLenUnique(0x1_0000_0000, 32);
    forall j: nat | j < 32 ensures !Bit(Pow2(32), j) { BitOfPow2(32, j); }
    assert !AnyBit(0x1_0000_0000, 0, 32);
  }

  lemma {:induction false} BitOfPow2(k: nat, i: nat)
    ensures Bit(Pow2(k), i) <==> i == k
  {
    if k == 0 {
      if i > 0 { BitOfZero(i - 1); }
    } else if i > 0 {
      BitOfPow2(k - 1, i - 1);
      assert Pow2(k) / 2 == Pow2(k - 1);
    }
  }

  lemma {:induction false} OrGrows(a: nat, b: nat)
    ensures Or(a, b) >= a
    decreases a
  {
    if a != 0 && b != 0 { OrGrows(a / 2, b / 2); }
  }

  lemma SmearGrows(n: nat)
    ensures Smear(n) >= n
  {
    var x := n;
    OrGrows(x, Shr(x, 1));
    x := Or(x, Shr(x, 1));
    OrGrows(x, Shr(x, 2));
    x := Or(x, Shr(x, 2));
    OrGrows(x, Shr(x, 4));
    x := Or(x, Shr(x, 4));
    OrGrows(x, Shr(x, 8));
    x := Or(x, Shr(x, 8));
    OrGrows(x, Shr(x, 16));
  }

  lemma TopHalf(x: nat, k: nat)
    requires x < Pow2(k) && k > 0
    ensures Shr(x, 1) == x / 2
    ensures x - Shr(x, 1) == Pow2(k - 1) <==> x == Pow2(k) - 1
  {
    assert Shr(x, 1) == Shr(x / 2, 0);
  }

  lemma FloorFrom3(n: int)
    requires n >= 3
    ensures GreatestPowerTo(FloorToPowerOfTwo(n), n) <==> NoGap(n)
  {
    var x := Smear(n);
    SmearFills(n);
    TopHalf(x, BitLen(n));
    GreatestPowerIs(n);
  }

  lemma FloorBelow3(n: int)
    requires n <= 2
    ensures GreatestPowerTo(FloorToPowerOfTwo(n), n) <==> n >= 1
    ensures n >= 1 ==> NoGap(n)
  {
    if n >= 1 {
      GreatestPowerIs(n);
      NoGapBelow32Bits(n);
      assert BitLen(1) == 1 && BitLen(2) == 2;
    }
  }

  /** FloorToPowerOfTwo gives the greatest power of two at or below n exactly when n is at least 1
      and has no such gap: for every n below 2^32, and not for 2^32. */
  lemma FloorExactly(n: int)
    requires IsInt(n)
    ensures GreatestPowerTo(FloorToPowerOfTwo(n), n) <==> n >= 1 && NoGap(n)
    ensures 1 <= n < 0x1_0000_0000 ==> NoGap(n)
    ensures !NoGap(0x1_0000_0000)
  {
    if n >= 3 { FloorFrom3(n); } else { FloorBelow3(n); }
    GapAt32();
    if 1 <= n < 0x1_0000_0000 { NoGapBelow32Bits(n); }
  }

  lemma SpreadBit(n: nat, x: nat, i: nat, j: nat)
    requires Spread(n, x, 32) && i <= j < i + 32 && Bit(n, j)
    ensures Bit(x, i)
  {
    assert AnyBit(n, i, 32);
  }

  lemma SmearBit(n: nat, i: nat, j: nat)
    requires i <= j < i + 32 && Bit(n, j)
    ensures Bit(Smear(n), i)
  {
    SmearSpreads(n);
    SpreadBit(n, Smear(n), i, j);
  }

  /** The two leading bits of n are set in what n is smeared to. */
  lemma SmearLeads(n: nat, x: nat)
    requires BitLen(n) >= 2 && x == Smear(n)
    ensures Bit(x, BitLen(n) - 2) && Bit(x, BitLen(n) - 1)
  {
    TopBit(n, 0);
    SmearBit(n, BitLen(n) - 1, BitLen(n) - 1);
    SmearBit(n, BitLen(n) - 2, BitLen(n) - 1);
  }

  lemma {:induction false} TwoBits(x: nat, i: nat)
    requires Bit(x, i) && Bit(x, i + 1)
    ensures x >= 3 * Pow2(i)
    decreases i
  {
    if i > 0 { TwoBits(x / 2, i - 1); }
  }

  lemma BetweenPowers(p: int, k: nat)
    requires Pow2(k) < p < Pow2(k + 1)
    ensures !IsPow2(p)
  {
    BitLenUnique(p, k);
  }

  lemma NearestPowerIs(n: int)
    requires n >= 3
    ensures var next := Pow2(BitLen(n - 1));
            NearestPower(if n - next / 2 < next - n then next / 2 else next, n)
  {
    var b := BitLen(n - 1);
    BitLenBounds(n - 1);
    Pow2IsPow2(b);
    Pow2IsPow2(b - 1);
    forall k: nat ensures Pow2(k) <= Pow2(b - 1) || Pow2(k) >= Pow2(b) {
      Pow2Monotone(k, b - 1);
      Pow2Monotone(b, k);
    }
  }

  /** A smear with a gap leads to no power of two, halved or not. */
  lemma GapIsNoPower(x: int, k: nat)
    requires 3 * Pow2(k) <= x < Pow2(k + 2) - 1
    ensures !IsPow2(x + 1) && !IsPow2((x + 1) / 2)
  {
    BetweenPowers(x + 1, k + 1);
    BetweenPowers((x + 1) / 2, k);
  }

  lemma ClosestOfSmall(n: int)
    requires n <= 2
    ensures NearestPower(1, n) <==> n < 2
    ensures NearestPower(2, n) <==> n == 2
  {
    Pow2IsPow2(0);
    Pow2IsPow2(1);
    assert Pow2(0) == 1 && Pow2(1) == 2;
    forall k: nat ensures Pow2(k) == 1 || Pow2(k) >= 2 {
      if k >= 1 { Pow2Monotone(1, k); }
    }
  }

  lemma NearestWithoutGap(n: int, x: nat)
    requires 3 <= n <= MAXINT_HEAD_BIT && x == Smear(n - 1) && NoGap(n - 1)
    ensures var next := x + 1;
            NearestPower(if n - next / 2 < next - n then next / 2 else next, n)
  {
    SmearFills(n - 1);
    NearestPowerIs(n);
  }

  /** Less than all ones, but beginning with two */
  lemma NoPowerWithGap(x: nat, k: nat)
    requires k >= 2 && Bit(x, k - 2) && Bit(x, k - 1) && x < Pow2(k) - 1
    ensures !IsPow2(x + 1) && !IsPow2((x + 1) / 2)
  {
    TwoBits(x, k - 2);
    GapIsNoPower(x, k - 2);
  }

  lemma SmearIsNoPower(n: nat, x: nat)
    requires n >= 2 && x == Smear(n) && !NoGap(n)
    ensures !IsPow2(x + 1) && !IsPow2((x + 1) / 2)
  {
    assert BitLen(n / 2) >= 1;
    SmearFills(n);
    SmearLeads(n, x);
    NoPowerWithGap(x, BitLen(n));
  }

  lemma Nearest(n: int, next: int, p: int)
    requires 3 <= n <= MAXINT_HEAD_BIT && next == Smear(n - 1) + 1
    requires p == if n - next / 2 < next - n then next / 2 else next
    ensures NearestPower(p, n) <==> NoGap(n - 1)
  {
    if NoGap(n - 1) {
      NearestWithoutGap(n, next - 1);
    } else {
      SmearIsNoPower(n - 1, next - 1);
    }
  }

  lemma Int64Small(x: int)
    requires IsInt(x)
    ensures Int64(x) == x
  {
  }

  /** next - n overflows for the three least arguments only, and n - prev for none but the first. */
  lemma NearerBelow3(n: int)
    requires IsInt(n) && n <= 2
    ensures Nearer(n, 2) == if n < 2 && n != MIN_INT && n != MIN_INT + 2 then 1 else 2
  {
    if n >= MIN_INT + 3 {
      Int64Small(n - 1);
      Int64Small(2 - n);
    }
  }

  lemma NearerFrom3(n: int, next: int)
    requires 3 <= n <= MAXINT_HEAD_BIT && n <= next < 2 * n
    ensures Nearer(n, next) == if n - next / 2 < next - n then next / 2 else next
  {
    Int64Small(n - next / 2);
    Int64Small(next - n);
  }

  lemma ClosestIs(n: int)
    requires IsInt(n) && n <= MAXINT_HEAD_BIT
    ensures ClosestPowerOfTwo(n) == Some(Nearer(n, if n <= 2 then 2 else Smear(n - 1) + 1))
  {
    CeilPanics(n);
  }

  lemma SmearBounds(n: int)
    requires 3 <= n <= MAXINT_HEAD_BIT
    ensures n <= Smear(n - 1) + 1 < 2 * n
  {
    CeilPanics(n);
    CeilExactly(n);
  }

  lemma ClosestFrom3(n: int, p: int)
    requires 3 <= n <= MAXINT_HEAD_BIT && p == Nearer(n, Smear(n - 1) + 1)
    ensures NearestPower(p, n) <==> NoGap(n - 1)
  {
    SmearBounds(n);
    NearerFrom3(n, Smear(n - 1) + 1);
    Nearest(n, Smear(n - 1) + 1, p);
  }

  /** For every int64: ClosestPowerOfTwo panics above 2^62, and below gives a nearest power of two, the
      greater of two, exactly when n is at most 2 or n - 1 has no such gap, so for every n up to 2^32;
      except for two arguments whose subtractions overflow. */
  lemma ClosestExactly(n: int)
    requires IsInt(n)
    ensures ClosestPowerOfTwo(n).None? <==> n > MAXINT_HEAD_BIT
    ensures n <= MAXINT_HEAD_BIT ==>
              (NearestPower(ClosestPowerOfTwo(n).value, n) <==>
                n != MIN_INT && n != MIN_INT + 2 && (n <= 2 || NoGap(n - 1)))
    ensures 2 <= n <= 0x1_0000_0000 ==> NoGap(n - 1)
  {
    if n > MAXINT_HEAD_BIT {
      CeilPanics(n);
    } else {
      ClosestIs(n);
      if n <= 2 {
        NearerBelow3(n);
        ClosestOfSmall(n);
      } else {
        ClosestFrom3(n, ClosestPowerOfTwo(n).value);
      }
    }
    if 2 <= n <= 0x1_0000_0000 { NoGapBelow32Bits(n - 1); }
  }

  lemma Pow2Halves(n: int)
    requires n > 1
    ensures IsPow2(n) <==> n % 2 == 0 && IsPow2(n / 2)
  {
    var b := BitLen(n / 2) - 1;
    assert BitLen(n) - 1 == b + 1 && Pow2(b + 1) == 2 * Pow2(b);
  }

  lemma {:induction false} AndPrev(n: int)
    ensures And(n, n - 1) == 0 <==> n == 0 || IsPow2(n)
    decreases if n < 0 then -n else n
  {
    if n == 1 {
      assert And(0, 0) == 0 && Pow2(BitLen(1) - 1) == 1;
    } else if n != 0 && n != -1 {
      if n > 1 { Pow2Halves(n); }
      if n % 2 == 0 {
        assert (n - 1) / 2 == n / 2 - 1;
        AndPrev(n / 2);
      } else {
        assert (n - 1) / 2 == n / 2;
        AndSelf(n / 2);
      }
    }
  }

  /** -2^k & (2^k - 1) */
  lemma {:induction false} AndMinMax(k: nat, p: int)
    requires p == Pow2(k)
    ensures And(-p, p - 1) == 0
    decreases k
  {
    if k == 0 {
    } else {
      AndMinMax(k - 1, p / 2);
      assert (-p) / 2 == -(p / 2) && (p - 1) / 2 == p / 2 - 1;
    }
  }

  lemma LeastIntPasses(n: int)
    requires n == MIN_INT
    ensures IsPowerOfTwo(n)
  {
    var p := -n;
    assert p == Pow2(63) by {
      Pow2Values();
      assert Pow2(63) == 2 * Pow2(62);
    }
    AndMinMax(63, p);
    assert Int64(n - 1) == p - 1;
  }

  /** IsPowerOfTwo also says yes to 0 and, because n - 1 wraps around, to the least int. */
  lemma IsPowerOfTwoExactly(n: int)
    requires IsInt(n)
    ensures IsPowerOfTwo(n) <==> IsPow2(n) || n == 0 || n == MIN_INT
  {
    if n == MIN_INT {
      LeastIntPasses(n);
    } else {
      AndPrev(n);
      Int64Small(n - 1);
    }
  }
}
