/** String-offset extraction: the start of every printable run of at least
    `min_str_len` bytes that is immediately followed by a NUL byte.

    The library finds these with the byte regex `[ -~\t\r\n]{n,}\x00` and
    `find_iter`. Because NUL is outside the printable class, a match starting at
    `p` must consume the whole printable run beginning at `p`; leftmost-first,
    non-overlapping search then reports exactly the runs that start at offset 0
    or right after a non-printable byte. That membership rule is stated here
    directly, with no regex engine. */
module StringScan {
  import opened Word32

  /** The regex class `[ -~\t\r\n]`: 0x20..0x7E, tab, line feed, carriage return. */
  predicate Printable(b: Byte) {
    0x20 <= b <= 0x7E || b == 0x09 || b == 0x0A || b == 0x0D
  }

  predicate AllPrintable(buf: seq<Byte>, lo: int, hi: int)
    requires 0 <= lo <= hi <= |buf|
  {
    forall j :: lo <= j < hi ==> Printable(buf[j])
  }

  /** `p` begins a run: nothing printable sits right before it. */
  predicate RunStart(buf: seq<Byte>, p: int)
    requires 0 <= p < |buf|
  {
    p == 0 || !Printable(buf[p - 1])
  }

  /** `buf[p..e]` is a printable run of at least `n` bytes and `buf[e]` is NUL. */
  predicate TerminatedRun(buf: seq<Byte>, n: nat, p: int, e: int)
    requires 0 <= p < |buf|
  {
    p + n <= e < |buf| && buf[e] == 0 && AllPrintable(buf, p, e)
  }

  /** Offset `p` is reported as a string. */
  ghost predicate IsStringStart(buf: seq<Byte>, n: nat, p: int) {
    && 0 <= p < |buf|
    && RunStart(buf, p)
    && exists e :: TerminatedRun(buf, n, p, e)
  }

  /** The offsets of all strings of at least `n` bytes, before the `as u32` cast. */
  ghost function StringStarts(buf: seq<Byte>, n: nat): set<nat> {
    set p | 0 <= p < |buf| && IsStringStart(buf, n, p)
  }

  /** The offset set `get_strings` returns: each start cast to `u32`. */
  ghost function StringOffsets(buf: seq<Byte>, n: nat): set<U32> {
    set p | p in StringStarts(buf, n) :: Truncate(p)
  }

  /** A run that starts at `p` and is cut by the non-printable byte at `i`
      is a string exactly when that byte is NUL and the run is long enough. */
  lemma RunEndsAt(buf: seq<Byte>, n: nat, p: int, i: int)
    requires 0 <= p <= i < |buf|
    requires AllPrintable(buf, p, i) && !Printable(buf[i])
    ensures (exists e :: TerminatedRun(buf, n, p, e)) <==> buf[i] == 0 && i - p >= n
  {
    if buf[i] == 0 && i - p >= n {
      assert TerminatedRun(buf, n, p, i);
    }
  }

  /** A run reaching the end of the buffer has no NUL after it. */
  lemma RunReachesEnd(buf: seq<Byte>, n: nat, p: int)
    requires 0 <= p < |buf|
    requires AllPrintable(buf, p, |buf|)
    ensures !exists e :: TerminatedRun(buf, n, p, e)
  {
  }

  /** `get_strings`: one pass over the image that tracks where the current
      printable run began and records that start when the run is closed by a
      NUL after at least `n` printable bytes. */
  method GetStrings(buf: seq<Byte>, n: U32) returns (offsets: set<U32>)
    ensures offsets == StringOffsets(buf, n)
    ensures |buf| <= WORD_LIMIT ==> forall p: U32 :: p in offsets <==> IsStringStart(buf, n, p)
  {
    ghost var found: set<nat> := {};
    offsets := {};
    var start := 0;
    var i := 0;
    while i < |buf|
      invariant 0 <= start <= i <= |buf|
      invariant start < |buf| ==> RunStart(buf, start)
      invariant AllPrintable(buf, start, i)
      invariant found == set p | 0 <= p < start && IsStringStart(buf, n, p)
      invariant offsets == set p | p in found :: Truncate(p)
    {
      if !Printable(buf[i]) {
        RunEndsAt(buf, n, start, i);
        ghost var closed := set p | start <= p <= i && IsStringStart(buf, n, p);
        if buf[i] == 0 && i - start >= n {
          assert IsStringStart(buf, n, start);
          assert closed == {start};
          offsets := offsets + {Truncate(start)};
          found := found + {start};
        } else {
          assert closed == {};
        }
        assert (set p | 0 <= p < i + 1 && IsStringStart(buf, n, p)) == found;
        start := i + 1;
      }
      i := i + 1;
    }
    if start < |buf| {
      RunReachesEnd(buf, n, start);
    }
    assert found == StringStarts(buf, n);
    if |buf| <= WORD_LIMIT {
      forall p: U32 | p in offsets
        ensures IsStringStart(buf, n, p)
      {
        var q :| q in found && Truncate(q) == p;
      }
      forall p: U32 | IsStringStart(buf, n, p)
        ensures p in offsets
      {
        assert p in found;
      }
    }
  }

  /** A single printable run followed by NUL is a string exactly when it has
      at least `n` bytes: with `n = 10`, ten bytes are accepted and nine are not. */
  lemma SingleRun(s: seq<Byte>, n: nat)
    requires AllPrintable(s, 0, |s|)
    ensures StringStarts(s + [0], n) == if |s| >= n then {0} else {}
  {
    var buf := s + [0];
    assert AllPrintable(buf, 0, |s|);
    RunEndsAt(buf, n, 0, |s|);
    forall p | 0 < p < |buf|
      ensures !IsStringStart(buf, n, p)
    {
      assert Printable(buf[p - 1]);
    }
    if |s| >= n {
      assert IsStringStart(buf, n, 0);
    }
  }
}
