/** Address-space partition: worker `i` of `n` scans from `i * share` to
    `(i + 1) * share`, where `share` is the ceiling of (2^32 - 1) / n computed in
    a 64-bit `usize`, both bounds cast to `u32`, and a truncated end of 0
    replaced by 0xFFFFFFFF. There is no alignment to the scan stride and no
    error path. */
module Partition {
  import opened Word32

  /** 2^64: `usize` is taken to be 64 bits wide. */
  const USIZE_LIMIT: int := 0x1_0000_0000_0000_0000

  /** Worker counts for which every intermediate of the share computation,
      `(0xFFFFFFFF + n) - 1` evaluated left to right, fits in a `usize`. */
  predicate ValidWorkers(n: nat) {
    1 <= n && U32_MAX + n < USIZE_LIMIT
  }

  /** Width of one worker's share. */
  function Share(n: nat): (w: nat)
    requires ValidWorkers(n)
    ensures (w - 1) * n < U32_MAX <= w * n
    ensures w * n <= U32_MAX + n - 1
  {
    var w := (U32_MAX + n - 1) / n;
    assert w * n + (U32_MAX + n - 1) % n == U32_MAX + n - 1;
    w
  }

  /** Worker `i` of `n` can compute both bounds without overflowing a `usize`. */
  predicate NoOverflow(i: nat, n: nat) {
    ValidWorkers(n) && (i + 1) * Share(n) < USIZE_LIMIT
  }

  /** Inclusive bounds of one worker's range of candidate base addresses. */
  datatype Interval = Interval(start: U32, end: U32)

  predicate Contains(iv: Interval, a: int) {
    iv.start <= a <= iv.end
  }

  /** `get_interval`. */
  function GetInterval(i: nat, n: nat): (iv: Interval)
    requires NoOverflow(i, n)
    ensures iv.end != 0
    ensures i == 0 ==> iv.start == 0
    ensures (i + 1) * Share(n) < WORD_LIMIT ==> iv.start < iv.end
  {
    var share := Share(n);
    var end := Truncate((i + 1) * share);
    Interval(Truncate(i * share), if end == 0 then U32_MAX else end)
  }

  /** Some worker's range contains address `a`. */
  ghost predicate Covered(n: nat, a: int) {
    exists i :: 0 <= i < n && NoOverflow(i, n) && Contains(GetInterval(i, n), a)
  }

  lemma MulLeft(a: nat, b: nat, c: nat)
    requires a <= b
    ensures a * c <= b * c
  {
  }

  /** Every worker index below `n` is safe to pass to `get_interval`. */
  lemma WorkerNoOverflow(i: nat, n: nat)
    requires ValidWorkers(n) && i < n
    ensures NoOverflow(i, n)
  {
    MulLeft(i + 1, n, Share(n));
  }

  /** With at most 65536 workers every share spans at least 65536 addresses. */
  lemma ShareIsWide(n: nat)
    requires ValidWorkers(n) && n <= 0x1_0000
    ensures Share(n) >= 0x1_0000
  {
    var w := Share(n);
    if w < 0x1_0000 {
      MulLeft(w, 0xFFFF, n);
      assert false;
    }
  }

  /** All bounds except the last worker's end lie strictly below 2^32 - 1,
      so no cast truncates them. */
  lemma InnerBoundsFit(i: nat, n: nat)
    requires ValidWorkers(n) && n <= 0x1_0000 && i + 1 < n
    ensures (i + 1) * Share(n) <= (n - 1) * Share(n) < U32_MAX
  {
    ShareIsWide(n);
    MulLeft(i + 1, n - 1, Share(n));
    assert (n - 1) * Share(n) == n * Share(n) - Share(n);
  }

  /** One worker scans the whole address space. */
  lemma OneWorker()
    ensures GetInterval(0, 1) == Interval(0, U32_MAX)
  {
  }

  /** Two workers meet at 0x80000000; the second end truncates to 0 and
      becomes 0xFFFFFFFF. */
  lemma TwoWorkers()
    ensures GetInterval(0, 2) == Interval(0, 0x8000_0000)
    ensures GetInterval(1, 2) == Interval(0x8000_0000, U32_MAX)
  {
    assert Share(2) == 0x8000_0000;
  }

  /** Three workers: bounds at multiples of 0x55555555, with no stride alignment. */
  lemma ThreeWorkers()
    ensures GetInterval(0, 3) == Interval(0, 0x5555_5555)
    ensures GetInterval(1, 3) == Interval(0x5555_5555, 0xAAAA_AAAA)
    ensures GetInterval(2, 3) == Interval(0xAAAA_AAAA, U32_MAX)
  {
    assert Share(3) == 0x5555_5555;
  }

  /** Neighbouring workers share their boundary address. */
  lemma {:induction false} AdjacentWorkersMeet(i: nat, n: nat)
    requires ValidWorkers(n) && n <= 0x1_0000 && i + 1 < n
    ensures NoOverflow(i, n) && NoOverflow(i + 1, n)
    ensures GetInterval(i, n).end == GetInterval(i + 1, n).start == (i + 1) * Share(n)
  {
    WorkerNoOverflow(i, n);
    WorkerNoOverflow(i + 1, n);
    InnerBoundsFit(i, n);
  }

  /** The last worker reaches 0xFFFFFFFF exactly when `n * share` is 2^32 - 1
      or 2^32; otherwise its end wraps to a small value below its start and it
      scans nothing. */
  lemma {:induction false} LastWorker(n: nat)
    requires ValidWorkers(n) && n <= 0x1_0000
    ensures NoOverflow(n - 1, n)
    ensures GetInterval(n - 1, n).end == U32_MAX <==> n * Share(n) <= WORD_LIMIT
    ensures n * Share(n) > WORD_LIMIT ==> GetInterval(n - 1, n).end < GetInterval(n - 1, n).start
  {
    WorkerNoOverflow(n - 1, n);
    var w := Share(n);
    var iv := GetInterval(n - 1, n);
    assert (n - 1 + 1) * w == n * w;
    if n * w > WORD_LIMIT {
      assert iv.end == n * w - WORD_LIMIT <= n - 2;
      ShareIsWide(n);
      MulLeft(1, n - 1, w);
      assert (n - 1) * w == n * w - w;
      assert iv.start == (n - 1) * w;
    }
  }

  /** With six workers the last range is (0xD5555557, 2): empty. */
  lemma SixWorkers()
    ensures GetInterval(5, 6) == Interval(0xD555_5557, 2)
  {
    assert Share(6) == 0x2AAA_AAAB;
  }

  lemma DivBounds(a: nat, w: nat)
    requires w > 0
    ensures (a / w) * w <= a < (a / w + 1) * w
  {
  }

  /** An address below `(n - 1) * share` lies in the range of worker `a / share`. */
  lemma InnerWorkerContains(n: nat, a: U32)
    requires ValidWorkers(n) && n <= 0x1_0000 && a / Share(n) < n - 1
    ensures NoOverflow(a / Share(n), n) && Contains(GetInterval(a / Share(n), n), a)
  {
    var w := Share(n);
    var i := a / w;
    DivBounds(a, w);
    AdjacentWorkersMeet(i, n);
    InnerBoundsFit(i, n);
    assert i * w <= (n - 1) * w;
  }

  /** When the last worker reaches the top, it holds every address from
      `(n - 1) * share` on. */
  lemma LastWorkerContains(n: nat, a: U32)
    requires ValidWorkers(n) && n <= 0x1_0000 && n * Share(n) <= WORD_LIMIT
    requires a / Share(n) >= n - 1
    ensures NoOverflow(n - 1, n) && Contains(GetInterval(n - 1, n), a)
  {
    var w := Share(n);
    LastWorker(n);
    DivBounds(a, w);
    MulLeft(n - 1, a / w, w);
    ShareIsWide(n);
    assert (n - 1) * w == n * w - w;
  }

  /** When the last worker reaches the top, address `a` lies in the range of
      worker `min(a / share, n - 1)`. */
  lemma WorkerFor(n: nat, a: U32)
    requires ValidWorkers(n) && n <= 0x1_0000 && n * Share(n) <= WORD_LIMIT
    ensures Covered(n, a)
  {
    if a / Share(n) < n - 1 {
      InnerWorkerContains(n, a);
    } else {
      LastWorkerContains(n, a);
    }
  }

  /** The workers' ranges together contain every address exactly when the
      last worker reaches 0xFFFFFFFF; otherwise 0xFFFFFFFF itself is missed. */
  lemma {:induction false} CoverageIff(n: nat)
    requires ValidWorkers(n) && n <= 0x1_0000
    ensures (forall a: U32 :: Covered(n, a)) <==> n * Share(n) <= WORD_LIMIT
  {
    var w := Share(n);
    LastWorker(n);
    if n * w <= WORD_LIMIT {
      forall a: U32
        ensures Covered(n, a)
      {
        WorkerFor(n, a);
      }
    } else {
      if Covered(n, U32_MAX) {
        var i :| 0 <= i < n && NoOverflow(i, n) && Contains(GetInterval(i, n), U32_MAX);
        if i + 1 < n {
          AdjacentWorkersMeet(i, n);
          InnerBoundsFit(i, n);
        }
      }
    }
  }

  /** Range of worker `i` with the end clamped in full precision before the
      cast, so that a share overshooting 2^32 ends at 0xFFFFFFFF instead of
      wrapping. */
  function ClampedInterval(i: nat, n: nat): (iv: Interval)
    requires NoOverflow(i, n)
    ensures iv.end != 0
    ensures i == 0 ==> iv.start == 0
    ensures (i + 1) * Share(n) < WORD_LIMIT ==> iv == GetInterval(i, n)
    ensures (i + 1) * Share(n) >= WORD_LIMIT ==> iv.end == U32_MAX
    ensures i * Share(n) < U32_MAX ==> iv.start < iv.end
  {
    var share := Share(n);
    var end := (i + 1) * share;
    assert end == i * share + share;
    Interval(Truncate(i * share), if end > U32_MAX then U32_MAX else end)
  }

  ghost predicate ClampedCovered(n: nat, a: int) {
    exists i :: 0 <= i < n && NoOverflow(i, n) && Contains(ClampedInterval(i, n), a)
  }

  lemma ClampedWorkerFor(n: nat, a: U32)
    requires ValidWorkers(n) && n <= 0x1_0000
    ensures ClampedCovered(n, a)
  {
    var w := Share(n);
    var i := if a / w < n - 1 then a / w else n - 1;
    WorkerNoOverflow(i, n);
    MulLeft(i, a / w, w);
    assert i * w <= a;
    if i < n - 1 {
      InnerBoundsFit(i, n);
      assert a < (a / w + 1) * w;
    } else {
      assert (i + 1) * w == n * w;
    }
    assert Contains(ClampedInterval(i, n), a);
  }

  /** With the clamped end, every worker's range is non-empty, neighbours meet,
      the last range ends at 0xFFFFFFFF and every address is covered, for every
      worker count up to 65536. */
  lemma {:induction false} ClampedCoverage(n: nat)
    requires ValidWorkers(n) && n <= 0x1_0000
    ensures NoOverflow(n - 1, n) && ClampedInterval(n - 1, n).end == U32_MAX
    ensures forall i :: 0 <= i < n && NoOverflow(i, n) ==> ClampedInterval(i, n).start < ClampedInterval(i, n).end
    ensures forall i :: 0 <= i && i + 1 < n && NoOverflow(i, n) && NoOverflow(i + 1, n) ==>
      ClampedInterval(i, n).end == ClampedInterval(i + 1, n).start
    ensures forall a: U32 :: ClampedCovered(n, a)
  {
    var w := Share(n);
    WorkerNoOverflow(n - 1, n);
    assert (n - 1 + 1) * w == n * w;
    forall i | 0 <= i < n && NoOverflow(i, n)
      ensures ClampedInterval(i, n).start < ClampedInterval(i, n).end
    {
      if i + 1 < n {
        InnerBoundsFit(i, n);
      } else {
        ShareIsWide(n);
        assert i * w == n * w - w;
      }
    }
    forall i | 0 <= i && i + 1 < n && NoOverflow(i, n) && NoOverflow(i + 1, n)
      ensures ClampedInterval(i, n).end == ClampedInterval(i + 1, n).start
    {
      InnerBoundsFit(i, n);
    }
    forall a: U32
      ensures ClampedCovered(n, a)
    {
      ClampedWorkerFor(n, a);
    }
  }
}
