/** Unsigned 32-bit words and their four-byte encodings, as read by the
    `byteorder` cursor when the image is scanned for pointer values. */
module Word32 {

  /** Number of distinct 32-bit values, 2^32. */
  const WORD_LIMIT: int := 0x1_0000_0000
  /** `u32::max_value()`. */
  const U32_MAX: int := 0xFFFF_FFFF

  type Byte = b: int | 0 <= b < 0x100
  type U32 = x: int | 0 <= x < 0x1_0000_0000
  /** A nonzero `u32`: the scan step `config.offset`. */
  type Stride = x: int | 1 <= x < 0x1_0000_0000 witness 1

  /** The value an unsigned integer keeps under an `as u32` cast. */
  function Truncate(x: nat): (r: U32)
    ensures x < WORD_LIMIT ==> r == x
    ensures (x - r) % WORD_LIMIT == 0
  {
    x % WORD_LIMIT
  }

  /** Least significant byte first: the one word whose little-endian bytes
      are `g`. */
  function DecodeLE(g: seq<Byte>): (r: U32)
    requires |g| == 4
    ensures EncodeLE(r) == g
  {
    var hi2: int := g[2] as int + 0x100 * (g[3] as int);
    var hi: int := g[1] as int + 0x100 * hi2;
    var v := g[0] as int + 0x100 * hi;
    assert v % 0x100 == g[0] && v / 0x100 == hi;
    assert v / 0x1_0000 == hi / 0x100 == hi2;
    assert v / 0x100_0000 == hi2 / 0x100 == g[3];
    v
  }

  /** Most significant byte first: the little-endian reading of the group
      taken back to front. */
  function DecodeBE(g: seq<Byte>): (r: U32)
    requires |g| == 4
    ensures r == DecodeLE([g[3], g[2], g[1], g[0]])
  {
    0x100_0000 * (g[0] as int) + 0x1_0000 * (g[1] as int) + 0x100 * (g[2] as int) + g[3] as int
  }

  /** The four bytes of `v`, least significant first. */
  function EncodeLE(v: U32): (g: seq<Byte>)
    ensures |g| == 4
  {
    [v % 0x100, (v / 0x100) % 0x100, (v / 0x1_0000) % 0x100, v / 0x100_0000]
  }

  lemma DecodeEncodeLE(v: U32)
    ensures DecodeLE(EncodeLE(v)) == v
  {
    var g := EncodeLE(v);
    assert v == g[0] + 0x100 * (v / 0x100);
    assert v / 0x100 == g[1] + 0x100 * (v / 0x1_0000);
    assert v / 0x1_0000 == g[2] + 0x100 * (v / 0x100_0000);
  }

  /** Distinct groups decode to distinct words. */
  lemma DecodeLEInjective(g: seq<Byte>, h: seq<Byte>)
    requires |g| == 4 && |h| == 4
    ensures DecodeLE(g) == DecodeLE(h) <==> g == h
  {
  }

  /** The byte-order flag only matters for groups that are not palindromes. */
  lemma ByteOrderAgreesOnPalindromes(g: seq<Byte>)
    requires |g| == 4
    ensures DecodeBE(g) == DecodeLE(g) <==> g[0] == g[3] && g[1] == g[2]
  {
    DecodeLEInjective([g[3], g[2], g[1], g[0]], g);
  }
}
