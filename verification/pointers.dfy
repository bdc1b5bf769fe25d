/** Pointer-value extraction: the image read as consecutive, non-overlapping
    4-byte words from offset 0, in the configured byte order. */
module PointerScan {
  import opened Word32

  /** The `k`-th complete 4-byte group of the image. */
  function Group(buf: seq<Byte>, k: nat): (g: seq<Byte>)
    requires k < |buf| / 4
    ensures |g| == 4
    ensures forall j :: 0 <= j < 4 ==> g[j] == buf[4 * k + j]
  {
    buf[4 * k .. 4 * k + 4]
  }

  /** `read_u32::<BigEndian>` or `read_u32::<LittleEndian>`, as the flag says. */
  function DecodeWord(bigEndian: bool, g: seq<Byte>): (v: U32)
    requires |g| == 4
    ensures EncodeLE(v) == if bigEndian then [g[3], g[2], g[1], g[0]] else g
  {
    if bigEndian then DecodeBE(g) else DecodeLE(g)
  }

  /** Every complete group decoded; a trailing remainder of fewer than four
      bytes contributes nothing. */
  ghost function PointerValues(buf: seq<Byte>, bigEndian: bool): set<U32> {
    set k: nat | k < |buf| / 4 :: DecodeWord(bigEndian, Group(buf, k))
  }

  /** `get_pointers`: read words from a cursor until a read comes up short. */
  method GetPointers(buf: seq<Byte>, bigEndian: bool) returns (pointers: set<U32>)
    ensures pointers == PointerValues(buf, bigEndian)
    ensures |buf| < 4 ==> pointers == {}
  {
    pointers := {};
    var pos := 0;
    while pos + 4 <= |buf|
      invariant 0 <= pos <= |buf| && pos % 4 == 0
      invariant pointers == set k: nat | k < pos / 4 :: DecodeWord(bigEndian, Group(buf, k))
    {
      assert buf[pos .. pos + 4] == Group(buf, pos / 4);
      pointers := pointers + {DecodeWord(bigEndian, buf[pos .. pos + 4])};
      pos := pos + 4;
    }
    assert pos / 4 == |buf| / 4;
  }

  /** Bytes after the last complete group never change the pointer set. */
  lemma {:induction false} TrailingBytesIgnored(buf: seq<Byte>, tail: seq<Byte>, bigEndian: bool)
    requires |buf| % 4 == 0 && |tail| < 4
    ensures PointerValues(buf + tail, bigEndian) == PointerValues(buf, bigEndian)
  {
    var whole := buf + tail;
    assert |whole| / 4 == |buf| / 4;
    forall k: nat | k < |buf| / 4
      ensures Group(whole, k) == Group(buf, k)
    {
    }
  }

  /** Appending one complete group adds exactly its decoded word. */
  lemma {:induction false} AppendGroup(buf: seq<Byte>, g: seq<Byte>, bigEndian: bool)
    requires |buf| % 4 == 0 && |g| == 4
    ensures PointerValues(buf + g, bigEndian) == PointerValues(buf, bigEndian) + {DecodeWord(bigEndian, g)}
  {
    var whole := buf + g;
    assert |whole| / 4 == |buf| / 4 + 1;
    forall k: nat | k < |buf| / 4
      ensures Group(whole, k) == Group(buf, k)
    {
    }
    assert Group(whole, |buf| / 4) == g;
  }
}
