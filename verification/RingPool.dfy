/** pkg/pool/ringbuffer/ringbuffer.go: which rings the pool takes back, and the calibration of that
    from the sizes seen. */
module RingPool {
  import opened Bits
  import opened Bytes
  import Ring

  const MIN_SIZE := 64 // 1 << minBitSize
  const STEPS := 20
  const CALIBRATE_CALLS_THRESHOLD := 42000

  /** index: n is the length of a ring */
  function Index(n: nat): nat {
    var m := (n - 1) / MIN_SIZE; // n-- and n >>= minBitSize
    var idx := if m > 0 then BitLen(m) else 0;
    if idx >= STEPS then STEPS - 1 else idx
  }

  function SizeOf(i: nat): nat {
    MIN_SIZE * Pow2(i)
  }

  /** The bucket is the first whose size holds n bytes; the last one also takes all that is longer. */
  lemma IndexIsFirst(n: nat)
    ensures Index(n) < 20 == STEPS
    ensures Index(n) < 19 ==> n <= 64 * Pow2(Index(n)) == SizeOf(Index(n))
    ensures Index(n) > 0 ==> SizeOf(Index(n) - 1) == 64 * Pow2(Index(n) - 1) < n
  {
    var m := (n - 1) / MIN_SIZE;
    if m > 0 {
      BitLenBounds(m);
      Pow2Monotone(STEPS - 2, BitLen(m) - 1);
    }
  }

  // ---- calibration ----

  datatype CallSize = CallSize(calls: nat, size: nat)

  function Sum(a: seq<CallSize>): nat {
    if a == [] then 0 else a[0].calls + Sum(a[1..])
  }

  /** The calls of the buckets of at most that size. */
  function SumUpTo(a: seq<CallSize>, size: nat): nat {
    if a == [] then 0 else (if a[0].size <= size then a[0].calls else 0) + SumUpTo(a[1..], size)
  }

  /** The buckets, smallest first. */
  function Buckets(calls: seq<nat>): (a: seq<CallSize>)
    ensures |a| == |calls|
  {
    seq(|calls|, i requires 0 <= i < |calls| => CallSize(calls[i], SizeOf(i)))
  }

  /** b is what sort.Sort may make of a: the most calls first, ties in any order. */
  ghost predicate Sorting(a: seq<CallSize>, b: seq<CallSize>) {
    multiset(a) == multiset(b) && forall i, j :: 0 <= i < j < |b| ==> b[i].calls >= b[j].calls
  }

  /** maxPercentile of the calls, rounded down */
  function MaxSum(total: nat): nat {
    total * 95 / 100
  }

  /** The last loop of calibrate, from its state: the buckets taken when it ends. */
  function Taken(a: seq<CallSize>, i: nat, sum: nat, maxSum: nat): (k: nat)
    requires i <= |a|
    ensures i <= k <= |a|
    decreases |a| - i
  {
    if i == |a| || sum > maxSum then i else Taken(a, i + 1, sum + a[i].calls, maxSum)
  }

  function MaxSize(a: seq<CallSize>): nat {
    if a == [] then 0 else Max(a[|a| - 1].size, MaxSize(a[..|a| - 1]))
  }

  lemma {:induction false} SumSnoc(a: seq<CallSize>, c: CallSize)
    ensures Sum(a + [c]) == Sum(a) + c.calls
  {
    if a == [] {
    } else {
      assert (a + [c])[1..] == a[1..] + [c];
      SumSnoc(a[1..], c);
    }
  }

  lemma SumOneMore(a: seq<CallSize>, i: nat)
    requires i < |a|
    ensures Sum(a[..i + 1]) == Sum(a[..i]) + a[i].calls
  {
    assert a[..i + 1] == a[..i] + [a[i]];
    SumSnoc(a[..i], a[i]);
  }

  lemma {:induction false} SumUpToSnoc(a: seq<CallSize>, c: CallSize, size: nat)
    ensures SumUpTo(a + [c], size) == SumUpTo(a, size) + if c.size <= size then c.calls else 0
  {
    if a == [] {
    } else {
      assert (a + [c])[1..] == a[1..] + [c];
      SumUpToSnoc(a[1..], c, size);
    }
  }

  /** The buckets taken hold more than maxSum, and without the last of them they did not. */
  lemma {:induction false} TakenIsFirst(a: seq<CallSize>, i: nat, sum: nat, maxSum: nat)
    requires i <= |a| && sum == Sum(a[..i]) && (i == 0 || Sum(a[..i - 1]) <= maxSum)
    ensures var k := Taken(a, i, sum, maxSum);
            && (Sum(a) > maxSum ==> Sum(a[..k]) > maxSum)
            && (k > 0 ==> Sum(a[..k - 1]) <= maxSum)
    decreases |a| - i
  {
    if i == |a| {
      assert a[..i] == a;
    } else if sum <= maxSum {
      SumOneMore(a, i);
      TakenIsFirst(a, i + 1, sum + a[i].calls, maxSum);
    }
  }

  lemma {:induction false} TakenEnds(a: seq<CallSize>, i: nat, sum: nat, maxSum: nat)
    requires i <= |a| && sum == Sum(a[..i])
    ensures var k := Taken(a, i, sum, maxSum);
            (k == |a| || Sum(a[..k]) > maxSum) && (a != [] && i == 0 ==> k > 0)
    decreases |a| - i
  {
    if i < |a| && sum <= maxSum {
      SumOneMore(a, i);
      TakenEnds(a, i + 1, sum + a[i].calls, maxSum);
    }
  }

  lemma {:induction false} PrefixCounted(a: seq<CallSize>, k: nat, size: nat)
    requires k <= |a| && forall i :: 0 <= i < k ==> a[i].size <= size
    ensures SumUpTo(a, size) >= Sum(a[..k])
    ensures k == |a| ==> SumUpTo(a, size) == Sum(a)
  {
    if k == 0 {
    } else {
      assert a[..k][1..] == a[1..][..k - 1];
      PrefixCounted(a[1..], k - 1, size);
    }
  }

  lemma {:induction false} MaxSizeIsGreatest(a: seq<CallSize>)
    ensures forall i :: 0 <= i < |a| ==> a[i].size <= MaxSize(a)
    ensures a != [] ==> exists i :: 0 <= i < |a| && a[i].size == MaxSize(a)
  {
    if |a| == 1 {
      assert a[0].size == MaxSize(a);
    } else if a != [] {
      var last := |a| - 1;
      MaxSizeIsGreatest(a[..last]);
      var j :| 0 <= j < last && a[j].size == MaxSize(a[..last]);
      assert a[last].size == MaxSize(a) || a[j].size == MaxSize(a);
    }
  }

  lemma {:induction false} SumUpToAppend(a: seq<CallSize>, b: seq<CallSize>, size: nat)
    ensures SumUpTo(a + b, size) == SumUpTo(a, size) + SumUpTo(b, size)
  {
    if a == [] {
      assert a + b == b;
    } else {
      assert (a + b)[1..] == a[1..] + b;
      SumUpToAppend(a[1..], b, size);
    }
  }

  lemma RemoveOne(b: seq<CallSize>, j: nat)
    requires j < |b|
    ensures multiset(b[..j] + b[j + 1..]) == multiset(b) - multiset{b[j]}
  {
    assert b == b[..j] + [b[j]] + b[j + 1..];
  }

  lemma SumUpToWithout(b: seq<CallSize>, j: nat, size: nat)
    requires j < |b|
    ensures SumUpTo(b, size) ==
              SumUpTo(b[..j] + b[j + 1..], size) + if b[j].size <= size then b[j].calls else 0
  {
    var before, after := b[..j], b[j + 1..];
    assert b == before + b[j..] && b[j..][1..] == after;
    SumUpToAppend(before, b[j..], size);
    SumUpToAppend(before, after, size);
  }

  /** The order of the buckets does not matter to their sum. */
  lemma {:induction false} SumUpToPermutes(a: seq<CallSize>, b: seq<CallSize>, size: nat)
    requires multiset(a) == multiset(b)
    ensures SumUpTo(a, size) == SumUpTo(b, size)
    decreases |a|
  {
    if a == [] {
      assert |multiset(b)| == 0;
    } else {
      assert a[0] in multiset(b);
      var j :| 0 <= j < |b| && b[j] == a[0];
      var rest := b[..j] + b[j + 1..];
      assert multiset(a[1..]) == multiset(rest) by {
        RemoveOne(b, j);
        assert a == [a[0]] + a[1..];
      }
      SumUpToWithout(b, j, size);
      SumUpToPermutes(a[1..], rest, size);
    }
  }

  lemma SumPermutes(a: seq<CallSize>, b: seq<CallSize>)
    requires multiset(a) == multiset(b)
    ensures Sum(a) == Sum(b)
  {
    var size := MaxSize(a);
    MaxSizeIsGreatest(a);
    forall i | 0 <= i < |b| ensures b[i].size <= size {
      assert b[i] in multiset(a);
    }
    PrefixCounted(a, |a|, size);
    PrefixCounted(b, |b|, size);
    SumUpToPermutes(a, b, size);
  }

  /** The sum of some of the buckets, and how many they are. */
  function Picked(a: seq<CallSize>, pick: seq<bool>): nat
    requires |a| == |pick|
  {
    if a == [] then 0
    else Picked(a[..|a| - 1], pick[..|a| - 1]) + if pick[|a| - 1] then a[|a| - 1].calls else 0
  }

  function HowMany(pick: seq<bool>): (m: nat)
    ensures m <= |pick|
  {
    if pick == [] then 0 else HowMany(pick[..|pick| - 1]) + if pick[|pick| - 1] then 1 else 0
  }

  /** Of buckets in descending order, no m hold more calls than the first m. */
  lemma {:induction false} FirstHoldMost(a: seq<CallSize>, pick: seq<bool>)
    requires |a| == |pick| && forall i, j :: 0 <= i < j < |a| ==> a[i].calls >= a[j].calls
    ensures Picked(a, pick) <= Sum(a[..HowMany(pick)])
  {
    if a == [] {
    } else {
      var n := |a| - 1;
      var m := HowMany(pick[..n]);
      FirstHoldMost(a[..n], pick[..n]);
      assert a[..n][..m] == a[..m];
      if pick[n] {
        assert a[..m + 1] == a[..m] + [a[m]];
        SumSnoc(a[..m], a[m]);
      }
    }
  }

  lemma {:induction false} SumPrefix(a: seq<CallSize>, m: nat, k: nat)
    requires m <= k <= |a|
    ensures Sum(a[..m]) <= Sum(a[..k])
    decreases k
  {
    if m < k {
      assert a[..k] == a[..k - 1] + [a[k - 1]];
      SumSnoc(a[..k - 1], a[k - 1]);
      SumPrefix(a, m, k - 1);
    }
  }

  datatype Sizes = Sizes(defaultSize: nat, maxSize: nat)

  /** What calibrate chooses, b being the buckets in the order of sort.Sort. */
  function Choose(b: seq<CallSize>, total: nat): Sizes
    requires b != []
  {
    Sizes(b[0].size, Max(b[0].size, MaxSize(b[..Taken(b, 0, 0, MaxSum(total))])))
  }

  /** The buckets of at most the chosen maxSize had more than 95% of the calls. */
  lemma CalibrationCovers(calls: seq<nat>, b: seq<CallSize>)
    requires calls != [] && Sorting(Buckets(calls), b) && b != []
    ensures var total := Sum(Buckets(calls));
            total > 0 ==> 100 * SumUpTo(Buckets(calls), Choose(b, total).maxSize) > 95 * total
  {
    var a := Buckets(calls);
    var total := Sum(a);
    SumPermutes(a, b);
    assert b[..0] == [];
    TakenIsFirst(b, 0, 0, MaxSum(total));
    var k := Taken(b, 0, 0, MaxSum(total));
    MaxSizeIsGreatest(b[..k]);
    var maxSize := Choose(b, total).maxSize;
    forall i | 0 <= i < k ensures b[i].size <= maxSize {
      assert b[i] == b[..k][i];
    }
    PrefixCounted(b, k, maxSize);
    SumUpToPermutes(a, b, maxSize);
  }

  /** The buckets taken for this are the fewest that hold so many calls: fewer hold at most 95% of them. */
  lemma CalibrationTakesFewest(b: seq<CallSize>, total: nat, pick: seq<bool>)
    requires forall i, j :: 0 <= i < j < |b| ==> b[i].calls >= b[j].calls
    requires |pick| == |b|
    ensures HowMany(pick) < Taken(b, 0, 0, MaxSum(total)) ==> 100 * Picked(b, pick) <= 95 * total
  {
    assert b[..0] == [];
    TakenIsFirst(b, 0, 0, MaxSum(total));
    var k := Taken(b, 0, 0, MaxSum(total));
    if HowMany(pick) < k {
      FirstHoldMost(b, pick);
      SumPrefix(b, HowMany(pick), k - 1);
    }
  }

  /** maxSize is that of the largest of those buckets, so none is larger than needed: the first k of b,
      where fewer have at most 95% of the calls, and they have more, or are all there are. */
  lemma MaxSizeIsTaken(b: seq<CallSize>, total: nat) returns (k: nat)
    requires b != []
    ensures 0 < k <= |b| && (100 * Sum(b[..k]) > 95 * total || k == |b|)
    ensures 100 * Sum(b[..k - 1]) <= 95 * total
    ensures forall i :: 0 <= i < k ==> b[i].size <= Choose(b, total).maxSize
    ensures exists i :: 0 <= i < k && b[i].size == Choose(b, total).maxSize
  {
    assert b[..0] == [];
    TakenIsFirst(b, 0, 0, MaxSum(total));
    k := Taken(b, 0, 0, MaxSum(total));
    TakenEnds(b, 0, 0, MaxSum(total));
    MaxSizeIsGreatest(b[..k]);
    forall i | 0 <= i < k ensures b[i].size <= MaxSize(b[..k]) { assert b[i] == b[..k][i]; }
    var i :| 0 <= i < k && b[..k][i].size == MaxSize(b[..k]);
    assert b[i].size == MaxSize(b[..k]);
  }

  /** Both sizes chosen are bucket sizes; the default is that of a most used bucket, and not above the
      other. */
  lemma ChosenSizes(calls: seq<nat>, b: seq<CallSize>)
    requires calls != [] && Sorting(Buckets(calls), b)
    ensures |b| == |calls|
    ensures var chosen := Choose(b, Sum(Buckets(calls)));
            && chosen.defaultSize <= chosen.maxSize
            && (exists i :: 0 <= i < |calls| && chosen.maxSize == SizeOf(i))
            && (exists i :: 0 <= i < |calls| && chosen.defaultSize == SizeOf(i) &&
                  forall j :: 0 <= j < |calls| ==> calls[j] <= calls[i])
  {
    assert |multiset(Buckets(calls))| == |calls| && |multiset(b)| == |b|;
    ChosenAreBuckets(calls, b, Taken(b, 0, 0, MaxSum(Sum(Buckets(calls)))));
  }

  lemma ChosenAreBuckets(calls: seq<nat>, b: seq<CallSize>, k: nat)
    requires calls != [] && Sorting(Buckets(calls), b) && |b| == |calls| && 0 < k <= |b|
    ensures exists i :: 0 <= i < |calls| && Max(b[0].size, MaxSize(b[..k])) == SizeOf(i)
    ensures exists i :: 0 <= i < |calls| && b[0].size == SizeOf(i) &&
              forall j :: 0 <= j < |calls| ==> calls[j] <= calls[i]
  {
    var a := Buckets(calls);
    forall n | 0 <= n < |b| ensures exists i :: 0 <= i < |calls| && b[n] == a[i] {
      assert b[n] in multiset(a);
    }
    MaxSizeIsGreatest(b[..k]);
    var m :| 0 <= m < k && b[m].size == MaxSize(b[..k]);
    var i :| 0 <= i < |calls| && b[m] == a[i];
    assert Max(b[0].size, MaxSize(b[..k])) == SizeOf(i);
    var d :| 0 <= d < |calls| && b[0] == a[d];
    forall j | 0 <= j < |calls| ensures calls[j] <= calls[d] {
      assert a[j] in multiset(b);
      var n :| 0 <= n < |b| && b[n] == a[j];
    }
  }

  // ---- rings, as against buckets ----

  /** The counts after rings of these lengths have been put, since the last calibration. */
  function Counted(ns: seq<nat>): (calls: seq<nat>)
    ensures |calls| == STEPS
  {
    if ns == [] then seq(STEPS, _ => 0)
    else
      var was, i := Counted(ns[..|ns| - 1]), Index(ns[|ns| - 1]);
      was[i := was[i] + 1]
  }

  /** Put counts a ring of length n. */
  lemma PutCounts(ns: seq<nat>, n: nat)
    ensures var was := Counted(ns);
            Counted(ns + [n]) == was[Index(n) := was[Index(n)] + 1]
  {
    assert (ns + [n])[..|ns|] == ns;
  }

  /** How many of the rings are no longer than size. */
  function AtMost(ns: seq<nat>, size: nat): (k: nat)
    ensures k <= |ns|
  {
    if ns == [] then 0 else AtMost(ns[..|ns| - 1], size) + if ns[|ns| - 1] <= size then 1 else 0
  }

  lemma SizesAscend(i: nat, j: nat)
    ensures SizeOf(i) <= SizeOf(j) <==> i <= j
  {
    if i <= j { Pow2Monotone(i, j); } else { Pow2Monotone(j + 1, i); }
  }

  lemma OneCallMore(calls: seq<nat>, i: nat, size: nat)
    requires i < |calls|
    ensures SumUpTo(Buckets(calls[i := calls[i] + 1]), size) ==
            SumUpTo(Buckets(calls), size) + if SizeOf(i) <= size then 1 else 0
  {
    var a, b := Buckets(calls), Buckets(calls[i := calls[i] + 1]);
    assert a[..i] + a[i + 1..] == b[..i] + b[i + 1..];
    SumUpToWithout(a, i, size);
    SumUpToWithout(b, i, size);
  }

  lemma {:induction false} NothingCalled(a: seq<CallSize>, size: nat)
    requires forall i :: 0 <= i < |a| ==> a[i].calls == 0
    ensures SumUpTo(a, size) == 0
  {
    if a == [] {
    } else {
      NothingCalled(a[1..], size);
    }
  }

  /** A ring is in a bucket of at most the size of bucket i exactly if it is no longer, or i is the last. */
  lemma IndexAtMost(n: nat, i: nat)
    requires i < STEPS
    ensures SizeOf(Index(n)) <= SizeOf(i) <==> n <= SizeOf(i) || i == STEPS - 1
  {
    IndexIsFirst(n);
    SizesAscend(Index(n), i);
    if Index(n) > i {
      SizesAscend(i, Index(n) - 1);
    } else if i < STEPS - 1 {
      SizesAscend(Index(n), i);
    }
  }

  /** The buckets of at most a size hold the rings of at most that size; and all rings, if it is the
      greatest. */
  lemma {:induction false} BucketsHold(ns: seq<nat>, i: nat)
    requires i < STEPS
    ensures SumUpTo(Buckets(Counted(ns)), SizeOf(i)) == if i == STEPS - 1 then |ns| else AtMost(ns, SizeOf(i))
  {
    if ns == [] {
      NothingCalled(Buckets(Counted(ns)), SizeOf(i));
    } else {
      var last := |ns| - 1;
      BucketsHold(ns[..last], i);
      IndexAtMost(ns[last], i);
      OneCallMore(Counted(ns[..last]), Index(ns[last]), SizeOf(i));
    }
  }

  lemma {:induction false} AllCounted(ns: seq<nat>)
    ensures Sum(Buckets(Counted(ns))) == |ns|
  {
    var a := Buckets(Counted(ns));
    forall i | 0 <= i < |a| ensures a[i].size <= SizeOf(STEPS - 1) { SizesAscend(i, STEPS - 1); }
    PrefixCounted(a, |a|, SizeOf(STEPS - 1));
    BucketsHold(ns, STEPS - 1);
  }

  lemma {:induction false} AtMostGrows(ns: seq<nat>, small: nat, large: nat)
    requires small <= large
    ensures AtMost(ns, small) <= AtMost(ns, large)
  {
    if ns == [] {
    } else {
      AtMostGrows(ns[..|ns| - 1], small, large);
    }
  }

  /** The rings no longer than the chosen maxSize are as many as the calls of the buckets of at most that
      size, less the rings too long for any bucket if maxSize is the greatest. They were more than 95% of
      the rings exactly if more than 95% of the rings were no longer than the greatest bucket size. */
  lemma {:induction false} CalibrationCoversRings(ns: seq<nat>, b: seq<CallSize>)
    requires ns != [] && Sorting(Buckets(Counted(ns)), b) && b != []
    ensures var maxSize, tooLong := Choose(b, |ns|).maxSize, |ns| - AtMost(ns, SizeOf(STEPS - 1));
            && AtMost(ns, maxSize) ==
                 SumUpTo(Buckets(Counted(ns)), maxSize) - (if maxSize == SizeOf(STEPS - 1) then tooLong else 0)
            && (100 * AtMost(ns, maxSize) > 95 * |ns| <==> 100 * AtMost(ns, SizeOf(STEPS - 1)) > 95 * |ns|)
  {
    var maxSize := Choose(b, |ns|).maxSize;
    AllCounted(ns);
    ChosenSizes(Counted(ns), b);
    CalibrationCovers(Counted(ns), b);
    var i :| 0 <= i < STEPS && maxSize == SizeOf(i);
    BucketsHold(ns, i);
    SizesAscend(i, STEPS - 1);
    SizesAscend(STEPS - 1, i);
    AtMostGrows(ns, maxSize, SizeOf(STEPS - 1));
  }

  /** So calibration from rings that are all longer than the greatest bucket size chooses a maxSize that
      none of them meets, and Put keeps no more of their lengths. */
  lemma {:induction false} TooLongIsNotKept(ns: seq<nat>, b: seq<CallSize>)
    requires ns != [] && Sorting(Buckets(Counted(ns)), b) && b != []
    requires forall k :: 0 <= k < |ns| ==> ns[k] > SizeOf(STEPS - 1)
    ensures var maxSize := Choose(b, |ns|).maxSize;
            maxSize > 0 && forall k :: 0 <= k < |ns| ==> ns[k] > maxSize
  {
    AllCounted(ns);
    ChosenSizes(Counted(ns), b);
    var maxSize := Choose(b, |ns|).maxSize;
    var i :| 0 <= i < STEPS && maxSize == SizeOf(i);
    SizesAscend(i, STEPS - 1);
  }

  /** One order sort.Sort may produce. */
  function Insert(c: CallSize, s: seq<CallSize>): seq<CallSize> {
    if s == [] || c.calls >= s[0].calls then [c] + s else [s[0]] + Insert(c, s[1..])
  }

  function Sorted(a: seq<CallSize>): seq<CallSize> {
    if a == [] then [] else Insert(a[0], Sorted(a[1..]))
  }

  lemma {:induction false} InsertPermutes(c: CallSize, s: seq<CallSize>)
    ensures multiset(Insert(c, s)) == multiset(s) + multiset{c}
  {
    if s != [] && c.calls < s[0].calls {
      InsertPermutes(c, s[1..]);
      assert s == [s[0]] + s[1..];
    }
  }

  lemma {:induction false} InsertKeepsOrder(c: CallSize, s: seq<CallSize>)
    requires forall i, j :: 0 <= i < j < |s| ==> s[i].calls >= s[j].calls
    ensures forall i, j :: 0 <= i < j < |Insert(c, s)| ==> Insert(c, s)[i].calls >= Insert(c, s)[j].calls
  {
    if s != [] && c.calls < s[0].calls {
      var rest := Insert(c, s[1..]);
      InsertKeepsOrder(c, s[1..]);
      InsertPermutes(c, s[1..]);
      forall j | 0 <= j < |rest| ensures s[0].calls >= rest[j].calls {
        assert rest[j] in multiset(rest);
        assert rest[j] == c || rest[j] in s[1..];
      }
    }
  }

  lemma FrontCounted(a: seq<CallSize>)
    requires a != []
    ensures multiset(a) == multiset(a[1..]) + multiset{a[0]}
  {
    assert a == [a[0]] + a[1..];
  }

  lemma {:induction false} SortedIsSorting(a: seq<CallSize>)
    ensures Sorting(a, Sorted(a))
  {
    if a == [] {
    } else {
      SortedIsSorting(a[1..]);
      InsertKeepsOrder(a[0], Sorted(a[1..]));
      InsertPermutes(a[0], Sorted(a[1..]));
      FrontCounted(a);
    }
  }

  class Pool {
    const calls: array<nat>
    var calibrating: bool
    var defaultSize: nat
    var maxSize: nat
    var pool: seq<Ring.Buffer>

    /** Before the first calibration both sizes are 0; after it they are sizes of buckets. */
    ghost predicate Valid()
      reads this, calls
    {
      && calls.Length == STEPS && !calibrating
      && (forall i :: 0 <= i < STEPS ==> calls[i] <= CALIBRATE_CALLS_THRESHOLD)
      && defaultSize <= maxSize
      && (maxSize == 0 || exists i :: 0 <= i < STEPS && maxSize == SizeOf(i))
    }

    constructor ()
      ensures Valid() && maxSize == 0 && pool == []
    {
      calls := new nat[STEPS](_ => 0);
      calibrating, defaultSize, maxSize, pool := false, 0, 0, [];
    }

    /** Put: counts the ring, and keeps it, emptied, unless it is larger than maxSize. */
    method Put(b: Ring.Buffer)
      requires Valid() && b.Valid()
      modifies this, calls, b
      ensures Valid()
      ensures var n, kept := old(b.size), maxSize == 0 || old(b.size) <= maxSize;
              && pool == old(pool) + (if kept then [b] else [])
              && (kept ==> b.Valid() && b.Contents == [])
              && (if old(calls[Index(n)]) < 42000
                  then calls[..] == old(calls[..])[Index(n) := old(calls[Index(n)]) + 1]
                       && Sizes(defaultSize, maxSize) == old(Sizes(defaultSize, maxSize))
                  else Calibrated(old(calls[..])[Index(n) := old(calls[Index(n)]) + 1]))
    {
      var idx := Index(b.size);
      IndexIsFirst(b.size);
      calls[idx] := calls[idx] + 1;
      if calls[idx] > CALIBRATE_CALLS_THRESHOLD {
        Calibrate();
      }
      if maxSize == 0 || b.size <= maxSize {
        b.Reset();
        pool := pool + [b];
      }
    }

    /** The state after a calibration from those counts */
    ghost predicate Calibrated(was: seq<nat>)
      reads this, calls
    {
      && was != [] && calls[..] == seq(|was|, _ => 0)
      && exists b :: Sorting(Buckets(was), b) && |b| == |was| &&
           Sizes(defaultSize, maxSize) == Choose(b, Sum(Buckets(was)))
    }

    method Calibrate()
      requires calls.Length == STEPS
      modifies this, calls
      ensures pool == old(pool) && calibrating == old(calibrating)
      ensures if old(calibrating)
              then calls[..] == old(calls[..]) && Sizes(defaultSize, maxSize) == old(Sizes(defaultSize, maxSize))
              else Calibrated(old(calls[..])) && Valid()
    {
      if calibrating {
        return;
      }
      calibrating := true;
      var a, callsSum := Collect();
      a := Sorted(a);
      SortedIsSorting(Buckets(old(calls[..])));
      ChosenSizes(old(calls[..]), a);
      var k;
      k, maxSize := Percentile(a, MaxSum(callsSum));
      defaultSize := a[0].size;
      calibrating := false;
    }

    /** The first loop of calibrate: takes the counts. */
    method Collect() returns (a: seq<CallSize>, callsSum: nat)
      requires calls.Length == STEPS
      modifies calls
      ensures a == Buckets(old(calls[..])) && callsSum == Sum(a)
      ensures calls[..] == seq(STEPS, _ => 0)
    {
      a, callsSum := [], 0;
      for i := 0 to STEPS
        invariant forall j :: 0 <= j < STEPS ==> calls[j] == if j < i then 0 else old(calls[j])
        invariant a == Buckets(old(calls[..]))[..i] && callsSum == Sum(a)
      {
        var n := calls[i];
        calls[i] := 0;
        callsSum := callsSum + n;
        SumSnoc(a, CallSize(n, SizeOf(i)));
        a := a + [CallSize(n, SizeOf(i))];
      }
    }

    /** The last loop of calibrate */
    static method Percentile(a: seq<CallSize>, maxSum: nat) returns (k: nat, maxSize: nat)
      requires |a| == STEPS
      ensures k == Taken(a, 0, 0, maxSum) && maxSize == Max(a[0].size, MaxSize(a[..k]))
    {
      maxSize := a[0].size;
      var callsSum: nat := 0;
      k := 0;
      for i := 0 to STEPS
        invariant k == i && Taken(a, 0, 0, maxSum) == Taken(a, i, callsSum, maxSum)
        invariant maxSize == Max(a[0].size, MaxSize(a[..i]))
      {
        if callsSum > maxSum {
          break;
        }
        callsSum := callsSum + a[i].calls;
        if a[i].size > maxSize {
          maxSize := a[i].size;
        }
        assert a[..i + 1][..i] == a[..i];
        k := i + 1;
      }
    }
  }
}
