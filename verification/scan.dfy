/** Candidate scan (`find_matches`): for each candidate base address of one
    worker's range, count the string offsets that, shifted by the base, land on
    a pointer value, and report the address whenever that count beats every
    earlier count of the range. */
module BaseScan {
  import opened Word32
  import opened Partition

  /** One "Matched {score} strings to pointers at {addr}" line. */
  datatype Report = Report(score: nat, addr: U32)

  /** The string offsets moved to base `a`, that is `{s + a | s in strings}`
      without the additions that would overflow 32 bits. */
  function Shifted(strings: set<U32>, a: U32): set<U32> {
    set s | s in strings && s + a <= U32_MAX :: s + a
  }

  lemma InShifted(strings: set<U32>, a: U32, v: int)
    ensures v in Shifted(strings, a) <==> a <= v <= U32_MAX && v - a in strings
  {
    if a <= v <= U32_MAX && v - a in strings {
      var s := v - a;
      assert s + a == v;
    }
  }

  /** Size of the intersection of the shifted offsets with the pointer values. */
  function Score(strings: set<U32>, pointers: set<U32>, a: U32): nat {
    |Shifted(strings, a) * pointers|
  }

  /** The string offsets that explain a pointer value at base `a`. */
  function Hits(strings: set<U32>, pointers: set<U32>, a: U32): set<U32> {
    set s | s in strings && s + a <= U32_MAX && s + a in pointers
  }

  /** Adding one offset adds its shift when the addition does not overflow. */
  lemma ShiftedAdd(S: set<U32>, x: U32, a: U32)
    ensures Shifted(S + {x}, a) == Shifted(S, a) + (if x + a <= U32_MAX then {x + a} else {})
  {
    forall v | v in Shifted(S + {x}, a)
      ensures v in Shifted(S, a) + (if x + a <= U32_MAX then {x + a} else {})
    {
      InShifted(S + {x}, a, v);
      InShifted(S, a, v);
    }
    forall v | v in Shifted(S, a)
      ensures v in Shifted(S + {x}, a)
    {
      InShifted(S + {x}, a, v);
      InShifted(S, a, v);
    }
    if x + a <= U32_MAX {
      InShifted(S + {x}, a, x + a);
    }
  }

  /** The inner `for s in strings` loop with `checked_add`. */
  method ShiftOffsets(strings: set<U32>, a: U32) returns (news: set<U32>)
    ensures forall s :: s in strings ==> (s + a in news <==> s + a <= U32_MAX)
    ensures news == Shifted(strings, a)
  {
    news := {};
    var rest := strings;
    while rest != {}
      invariant rest <= strings
      invariant news == Shifted(strings - rest, a)
      decreases |rest|
    {
      var s :| s in rest;
      ShiftedAdd(strings - rest, s, a);
      assert strings - (rest - {s}) == (strings - rest) + {s};
      if s + a <= U32_MAX {
        news := news + {s + a};
      }
      rest := rest - {s};
    }
    assert strings - rest == strings;
  }

  /** One candidate of the scan: the shifted set intersected with the
      pointer values, and its size. */
  method ScoreAddress(strings: set<U32>, pointers: set<U32>, a: U32) returns (score: nat)
    ensures score == |Hits(strings, pointers, a)|
  {
    var news := ShiftOffsets(strings, a);
    var intersection := news * pointers;
    score := |intersection|;
    ScoreCountsStrings(strings, pointers, a);
  }

  /** Shifting by a fixed amount is one-to-one. */
  lemma {:induction false} ShiftPreservesSize(S: set<U32>, a: U32)
    requires forall s :: s in S ==> s + a <= U32_MAX
    ensures |Shifted(S, a)| == |S|
    decreases |S|
  {
    if S != {} {
      var x :| x in S;
      var R := S - {x};
      ShiftPreservesSize(R, a);
      ShiftedAdd(R, x, a);
      assert R + {x} == S;
      InShifted(R, a, x + a);
    }
  }

  /** The score is the number of string offsets `s` with `s + a` at most
      0xFFFFFFFF and equal to a pointer value. */
  lemma ScoreCountsStrings(strings: set<U32>, pointers: set<U32>, a: U32)
    ensures Score(strings, pointers, a) == |Hits(strings, pointers, a)|
  {
    var hits := Hits(strings, pointers, a);
    forall v
      ensures v in Shifted(strings, a) * pointers <==> v in Shifted(hits, a)
    {
      InShifted(strings, a, v);
      InShifted(hits, a, v);
    }
    assert Shifted(strings, a) * pointers == Shifted(hits, a);
    ShiftPreservesSize(hits, a);
  }

  /** No base scores more than there are strings or pointers. */
  lemma ScoreBounded(strings: set<U32>, pointers: set<U32>, a: U32)
    ensures Score(strings, pointers, a) <= |strings|
    ensures Score(strings, pointers, a) <= |pointers|
  {
    ScoreCountsStrings(strings, pointers, a);
    var hits := Hits(strings, pointers, a);
    assert hits <= strings;
    SubsetSize(hits, strings);
    SubsetSize(Shifted(strings, a) * pointers, pointers);
  }

  lemma {:induction false} SubsetSize<T>(A: set<T>, B: set<T>)
    requires A <= B
    ensures |A| <= |B|
  {
    assert B == A + (B - A);
  }

  /** If the image was built at base `b`, so that every string offset moved
      by `b` is a pointer value, then `b` scores every string and no base
      scores more. */
  lemma PlantedBase(strings: set<U32>, pointers: set<U32>, b: U32)
    requires forall s :: s in strings ==> s + b <= U32_MAX && s + b in pointers
    ensures Score(strings, pointers, b) == |strings|
    ensures forall a: U32 :: Score(strings, pointers, a) <= Score(strings, pointers, b)
  {
    ScoreCountsStrings(strings, pointers, b);
    assert Hits(strings, pointers, b) == strings;
    forall a: U32
      ensures Score(strings, pointers, a) <= Score(strings, pointers, b)
    {
      ScoreBounded(strings, pointers, a);
    }
  }

  /** The `k`-th address the scan of `iv` tries. */
  function Nth(iv: Interval, offset: Stride, k: nat): int {
    iv.start + k * offset
  }

  /** `a` is one of start, start + offset, start + 2 * offset, ... and lies in
      the range. */
  ghost predicate Visited(iv: Interval, offset: Stride, a: int) {
    Contains(iv, a) && exists k: nat :: Nth(iv, offset, k) == a
  }

  /** Later steps land on higher addresses, a full `offset` apart. */
  lemma NthMonotone(iv: Interval, offset: Stride, j: nat, k: nat)
    requires j < k
    ensures Nth(iv, offset, j) + offset <= Nth(iv, offset, k)
  {
    MulLeft(j + 1, k, offset);
  }

  lemma NthNext(iv: Interval, offset: Stride, k: nat)
    ensures Nth(iv, offset, k + 1) == Nth(iv, offset, k) + offset
  {
  }

  /** Consecutive visited addresses are exactly `offset` apart. */
  lemma VisitGap(iv: Interval, offset: Stride, k: nat, a: int)
    requires Nth(iv, offset, k) < a < Nth(iv, offset, k) + offset
    ensures !Visited(iv, offset, a)
  {
    forall j: nat
      ensures Nth(iv, offset, j) != a
    {
      if j < k {
        NthMonotone(iv, offset, j, k);
      } else if j > k {
        NthMonotone(iv, offset, k, j);
      }
    }
  }

  /** The scan reports visited address `a`: its score is positive and beats the
      score of every earlier visited address. */
  ghost predicate IsRecord(strings: set<U32>, pointers: set<U32>, iv: Interval, offset: Stride, a: U32) {
    && Visited(iv, offset, a)
    && Score(strings, pointers, a) > 0
    && forall b: U32 :: Visited(iv, offset, b) && b < a ==> Score(strings, pointers, b) < Score(strings, pointers, a)
  }

  /** Reported addresses and scores both strictly increase. */
  predicate Increasing(reports: seq<Report>) {
    forall j, k :: 0 <= j < k < |reports| ==> reports[j].addr < reports[k].addr && reports[j].score < reports[k].score
  }

  /** The running maximum `most_intersections` after the reports so far. */
  function Best(reports: seq<Report>): nat {
    if |reports| == 0 then 0 else reports[|reports| - 1].score
  }

  /** `reports` is exactly what the scan prints for the addresses below `bound`. */
  ghost predicate ReportsBelow(strings: set<U32>, pointers: set<U32>, iv: Interval, offset: Stride,
                               reports: seq<Report>, bound: int) {
    && (forall j :: 0 <= j < |reports| ==>
          && reports[j].addr < bound
          && IsRecord(strings, pointers, iv, offset, reports[j].addr)
          && reports[j].score == Score(strings, pointers, reports[j].addr))
    && (forall a: U32 :: a < bound && IsRecord(strings, pointers, iv, offset, a) ==>
          Report(Score(strings, pointers, a), a) in reports)
    && Increasing(reports)
    && (forall a: U32 :: a < bound && Visited(iv, offset, a) ==> Score(strings, pointers, a) <= Best(reports))
  }

  /** The complete output of a scan of `iv`: every record address with its
      score, in increasing order, the last one carrying the best score of the
      range (and nothing at all when every score is 0). */
  ghost predicate IsReportStream(strings: set<U32>, pointers: set<U32>, iv: Interval, offset: Stride,
                                 reports: seq<Report>) {
    ReportsBelow(strings, pointers, iv, offset, reports, WORD_LIMIT)
  }

  /** The comparison `intersection.len() > most_intersections` holds exactly
      at the record addresses. */
  lemma RecordStep(strings: set<U32>, pointers: set<U32>, iv: Interval, offset: Stride,
                   reports: seq<Report>, current: U32)
    requires Visited(iv, offset, current)
    requires ReportsBelow(strings, pointers, iv, offset, reports, current)
    ensures Score(strings, pointers, current) > Best(reports) <==> IsRecord(strings, pointers, iv, offset, current)
  {
    if IsRecord(strings, pointers, iv, offset, current) && |reports| > 0 {
      var last := reports[|reports| - 1];
      assert Visited(iv, offset, last.addr);
    }
  }

  /** The reports after scoring `addr`: a new line exactly when the score
      beats the running maximum. */
  function Advance(reports: seq<Report>, score: nat, addr: U32): seq<Report> {
    if score > Best(reports) then reports + [Report(score, addr)] else reports
  }

  /** Scoring visited address `current` extends the reports to `current`. */
  lemma ReportCurrent(strings: set<U32>, pointers: set<U32>, iv: Interval, offset: Stride,
                      reports: seq<Report>, current: U32)
    requires Visited(iv, offset, current)
    requires ReportsBelow(strings, pointers, iv, offset, reports, current)
    ensures ReportsBelow(strings, pointers, iv, offset,
                         Advance(reports, Score(strings, pointers, current), current), current + 1)
  {
    var score := Score(strings, pointers, current);
    var next := Advance(reports, score, current);
    RecordStep(strings, pointers, iv, offset, reports, current);
    if score > Best(reports) {
      assert next[|reports|] == Report(score, current);
      forall j | 0 <= j < |reports|
        ensures reports[j].score <= Best(reports)
      {
        if j < |reports| - 1 {
          assert reports[j].score < reports[|reports| - 1].score;
        }
      }
      assert Increasing(next);
    }
    forall a: U32 | a < current + 1 && IsRecord(strings, pointers, iv, offset, a)
      ensures Report(Score(strings, pointers, a), a) in next
    {
      if a < current {
        assert Report(Score(strings, pointers, a), a) in reports;
      }
    }
    forall a: U32 | a < current + 1 && Visited(iv, offset, a)
      ensures Score(strings, pointers, a) <= Best(next)
    {
    }
  }

  /** Addresses the scan never visits change nothing. */
  lemma SkipUnvisited(strings: set<U32>, pointers: set<U32>, iv: Interval, offset: Stride,
                      reports: seq<Report>, lo: int, hi: int)
    requires lo <= hi
    requires forall a: U32 :: lo <= a < hi ==> !Visited(iv, offset, a)
    requires ReportsBelow(strings, pointers, iv, offset, reports, lo)
    ensures ReportsBelow(strings, pointers, iv, offset, reports, hi)
  {
  }

  /** Reports complete past the last 32-bit address are the whole stream. */
  lemma ReportsBelowTop(strings: set<U32>, pointers: set<U32>, iv: Interval, offset: Stride,
                        reports: seq<Report>, bound: int)
    requires bound >= WORD_LIMIT
    requires ReportsBelow(strings, pointers, iv, offset, reports, bound)
    ensures IsReportStream(strings, pointers, iv, offset, reports)
  {
  }

  /** Processing visited address `current` extends the reports to every
      address below `current + offset`. */
  lemma ScanStep(strings: set<U32>, pointers: set<U32>, iv: Interval, offset: Stride,
                 reports: seq<Report>, current: U32, k: nat)
    requires Contains(iv, current) && current == Nth(iv, offset, k)
    requires ReportsBelow(strings, pointers, iv, offset, reports, current)
    ensures ReportsBelow(strings, pointers, iv, offset,
                         Advance(reports, Score(strings, pointers, current), current), current + offset)
  {
    ReportCurrent(strings, pointers, iv, offset, reports, current);
    forall a: U32 | current + 1 <= a < current + offset
      ensures !Visited(iv, offset, a)
    {
      VisitGap(iv, offset, k, a);
    }
    SkipUnvisited(strings, pointers, iv, offset,
                  Advance(reports, Score(strings, pointers, current), current), current + 1, current + offset);
  }

  /** `find_matches` for worker `i` of `n`. */
  method FindMatches(strings: set<U32>, pointers: set<U32>, offset: Stride, i: nat, n: nat)
    returns (reports: seq<Report>)
    requires NoOverflow(i, n)
    ensures IsReportStream(strings, pointers, GetInterval(i, n), offset, reports)
  {
    reports := ScanInterval(strings, pointers, offset, GetInterval(i, n));
  }

  /** The scanning loop of `find_matches` over the range `iv`. */
  method ScanInterval(strings: set<U32>, pointers: set<U32>, offset: Stride, iv: Interval)
    returns (reports: seq<Report>)
    ensures IsReportStream(strings, pointers, iv, offset, reports)
  {
    var most := 0;
    var current: U32 := iv.start;
    ghost var k: nat := 0;
    reports := [];
    while current <= iv.end
      invariant iv.start <= current == Nth(iv, offset, k)
      invariant ReportsBelow(strings, pointers, iv, offset, reports, current)
      invariant most == Best(reports)
      decreases WORD_LIMIT - current
    {
      ghost var old_reports := reports;
      var matched := ScoreAddress(strings, pointers, current);
      ScoreCountsStrings(strings, pointers, current);
      ScanStep(strings, pointers, iv, offset, reports, current, k);
      if matched > most {
        most := matched;
        reports := reports + [Report(matched, current)];
      }
      assert reports == Advance(old_reports, Score(strings, pointers, current), current);
      if current + offset > U32_MAX {
        // `checked_add` fails: the loop ends, and with it the function.
        ReportsBelowTop(strings, pointers, iv, offset, reports, current + offset);
        return;
      }
      NthNext(iv, offset, k);
      current := current + offset;
      k := k + 1;
    }
    SkipUnvisited(strings, pointers, iv, offset, reports, current, WORD_LIMIT);
  }

  /** Two sequences ordered by strictly increasing address with the same
      elements are equal. */
  lemma {:induction false} IncreasingUnique(r1: seq<Report>, r2: seq<Report>)
    requires Increasing(r1) && Increasing(r2)
    requires forall x :: x in r1 <==> x in r2
    ensures r1 == r2
    decreases |r1| + |r2|, 1
  {
    if |r1| > 0 {
      IncreasingUniqueFrom(r1, r2);
    } else if |r2| > 0 {
      IncreasingUniqueFrom(r2, r1);
    }
  }

  /** The inductive step: both first elements carry the least address. */
  lemma {:induction false} IncreasingUniqueFrom(r1: seq<Report>, r2: seq<Report>)
    requires |r1| > 0
    requires Increasing(r1) && Increasing(r2)
    requires forall x :: x in r1 <==> x in r2
    ensures r1 == r2
    decreases |r1| + |r2|, 0
  {
    assert r1[0] in r2;
    var k :| 0 <= k < |r2| && r2[k] == r1[0];
    assert r2[0] in r2;
    var m :| 0 <= m < |r1| && r1[m] == r2[0];
    assert r2[0].addr <= r2[k].addr;
    assert r1[0].addr <= r1[m].addr;
    assert r1[0] == r2[0];
    forall x
      ensures x in r1[1..] <==> x in r2[1..]
    {
      if x in r1[1..] {
        var j :| 1 <= j < |r1| && r1[j] == x;
        assert r1[0].addr < x.addr;
        assert x in r2;
      }
      if x in r2[1..] {
        var j :| 1 <= j < |r2| && r2[j] == x;
        assert r2[0].addr < x.addr;
        assert x in r1;
      }
    }
    IncreasingUnique(r1[1..], r2[1..]);
    assert r1 == [r1[0]] + r1[1..];
    assert r2 == [r2[0]] + r2[1..];
  }

  /** The report stream of a range is determined by the inputs: scanning the
      same sets twice prints the same lines. */
  lemma ReportStreamUnique(strings: set<U32>, pointers: set<U32>, iv: Interval, offset: Stride,
                           r1: seq<Report>, r2: seq<Report>)
    requires IsReportStream(strings, pointers, iv, offset, r1)
    requires IsReportStream(strings, pointers, iv, offset, r2)
    ensures r1 == r2
  {
    forall x
      ensures x in r1 <==> x in r2
    {
      if x in r1 {
        var j :| 0 <= j < |r1| && r1[j] == x;
        assert x == Report(Score(strings, pointers, x.addr), x.addr);
      }
      if x in r2 {
        var j :| 0 <= j < |r2| && r2[j] == x;
        assert x == Report(Score(strings, pointers, x.addr), x.addr);
      }
    }
    IncreasingUnique(r1, r2);
  }

  /** A worker whose range is empty (end below start) reports nothing. */
  lemma EmptyRangeReportsNothing(strings: set<U32>, pointers: set<U32>, iv: Interval, offset: Stride,
                                 reports: seq<Report>)
    requires iv.end < iv.start
    requires IsReportStream(strings, pointers, iv, offset, reports)
    ensures reports == []
  {
    assert |reports| > 0 ==> IsRecord(strings, pointers, iv, offset, reports[0].addr);
  }

  /** A scan that visits the base `b` an image was built for ends on a line
      scoring every string, at `b` or at an earlier address that ties it. */
  lemma PlantedBaseReported(strings: set<U32>, pointers: set<U32>, iv: Interval, offset: Stride,
                            reports: seq<Report>, b: U32)
    requires IsReportStream(strings, pointers, iv, offset, reports)
    requires Visited(iv, offset, b) && |strings| > 0
    requires forall s :: s in strings ==> s + b <= U32_MAX && s + b in pointers
    ensures |reports| > 0
    ensures reports[|reports| - 1].score == |strings|
    ensures reports[|reports| - 1].addr <= b
  {
    PlantedBase(strings, pointers, b);
    assert |reports| > 0;
    var last := reports[|reports| - 1];
    ScoreBounded(strings, pointers, last.addr);
    assert last.score == |strings|;
    assert IsRecord(strings, pointers, iv, offset, last.addr);
  }
}
