/** The `--offset` option of `Config::new`: text of the form `0x<hex>` giving
    the nonzero scan step. Hex parsing follows `u32::from_str_radix(_, 16)`:
    an optional leading `+`, digits of either case, and an error on overflow. */
module OffsetOption {
  import opened Word32
  import opened Results

  /** The four error messages of the offset block. */
  datatype OffsetError =
    | FormatInvalid   // "offset format is invalid"
    | MissingPrefix   // "ensure offset parameter begins with 0x."
    | ParseFailed     // "failed to parse offset"
    | ZeroOffset      // "0 offset is invalid"

  predicate IsAscii(s: string) {
    forall k :: 0 <= k < |s| ==> s[k] as int < 0x80
  }

  /** `char::to_digit(16)` succeeds. */
  predicate IsHexDigit(c: char) {
    '0' <= c <= '9' || 'a' <= c <= 'f' || 'A' <= c <= 'F'
  }

  function DigitValue(c: char): (d: nat)
    requires IsHexDigit(c)
    ensures d < 16
  {
    if c <= '9' then c as int - '0' as int
    else if c <= 'F' then c as int - 'A' as int + 10
    else c as int - 'a' as int + 10
  }

  predicate AllHex(ds: string) {
    forall k :: 0 <= k < |ds| ==> IsHexDigit(ds[k])
  }

  /** The number a digit string denotes, most significant digit first,
      without any width limit. */
  function HexValue(ds: string): nat
    requires AllHex(ds)
  {
    if |ds| == 0 then 0 else 16 * HexValue(ds[..|ds| - 1]) + DigitValue(ds[|ds| - 1])
  }

  /** The digit loop of `from_str_radix`: left to right, each character
      converted with `to_digit` and folded in with `checked_mul` and
      `checked_add`. */
  function Accumulate(ds: string): Option<U32> {
    if |ds| == 0 then Some(0)
    else match Accumulate(ds[..|ds| - 1])
      case None => None
      case Some(acc) =>
        var c := ds[|ds| - 1];
        if !IsHexDigit(c) then None
        else if 16 * acc > U32_MAX then None
        else if 16 * acc + DigitValue(c) > U32_MAX then None
        else Some(16 * acc + DigitValue(c))
  }

  /** The digits after an optional leading `+`. */
  function Unsigned(t: string): string {
    if |t| > 0 && t[0] == '+' then t[1..] else t
  }

  /** `t` is an optional `+` followed by at least one hex digit, and the
      number they denote fits in 32 bits. */
  predicate HexFits(t: string) {
    var digits := Unsigned(t);
    |digits| > 0 && AllHex(digits) && HexValue(digits) <= U32_MAX
  }

  /** `u32::from_str_radix(t, 16)`, with every error kind collapsed to `None`. */
  function FromStrRadix16(t: string): (r: Option<U32>)
    ensures r == if HexFits(t) then Some(HexValue(Unsigned(t))) else None
  {
    var digits := Unsigned(t);
    AccumulateIsHexValue(digits);
    if |digits| == 0 then None else Accumulate(digits)
  }

  /** Checked accumulation fails exactly when a character is not a hex digit
      or the number overflows 32 bits; otherwise it yields the number. */
  lemma {:induction false} AccumulateIsHexValue(ds: string)
    ensures Accumulate(ds) == if AllHex(ds) && HexValue(ds) <= U32_MAX then Some(HexValue(ds)) else None
  {
    if |ds| > 0 {
      var init := ds[..|ds| - 1];
      AccumulateIsHexValue(init);
      if AllHex(ds) {
        assert AllHex(init);
        assert HexValue(init) <= HexValue(ds);
      } else if AllHex(init) {
        assert !IsHexDigit(ds[|ds| - 1]);
      } else {
        assert Accumulate(init) == None;
      }
    }
  }

  /** `s` is `0x` followed by the hex text of the nonzero 32-bit value `v`. */
  ghost predicate Denotes(s: string, v: int) {
    && |s| > 2 && s[..2] == "0x"
    && var digits := Unsigned(s[2..]);
       |digits| > 0 && AllHex(digits) && HexValue(digits) == v && 0 < v <= U32_MAX
  }

  /** The offset block of `Config::new`. */
  function ParseOffset(s: string): (r: Result<Stride, OffsetError>)
    requires IsAscii(s)
    ensures r.Ok? ==> Denotes(s, r.value)
    ensures forall v :: Denotes(s, v) ==> r == Ok(v)
    ensures r == Err(FormatInvalid) <==> |s| <= 2
    ensures r == Err(MissingPrefix) <==> |s| > 2 && s[..2] != "0x"
    ensures r == Err(ParseFailed) <==> |s| > 2 && s[..2] == "0x" && !HexFits(s[2..])
    ensures r == Err(ZeroOffset) <==> |s| > 2 && s[..2] == "0x" && HexFits(s[2..]) && HexValue(Unsigned(s[2..])) == 0
  {
    if |s| <= 2 then Err(FormatInvalid)
    else if s[..2] != "0x" then Err(MissingPrefix)
    else
      match FromStrRadix16(s[2..])
      case None => Err(ParseFailed)
      case Some(v) => if v == 0 then Err(ZeroOffset) else Ok(v)
  }

  function HexChar(d: nat): (c: char)
    requires d < 16
    ensures IsHexDigit(c) && DigitValue(c) == d
  {
    if d < 10 then ('0' as int + d) as char else ('a' as int + d - 10) as char
  }

  /** `{:x}` formatting: lower-case hex digits, no leading zeros. */
  function FormatHex(v: nat): (ds: string)
    ensures |ds| > 0 && AllHex(ds)
    ensures ds[0] != '+'
  {
    if v < 16 then [HexChar(v)] else FormatHex(v / 16) + [HexChar(v % 16)]
  }

  lemma {:induction false} FormatHexValue(v: nat)
    ensures HexValue(FormatHex(v)) == v
  {
    if v >= 16 {
      FormatHexValue(v / 16);
      var ds := FormatHex(v);
      assert ds[..|ds| - 1] == FormatHex(v / 16);
    }
  }

  /** Every nonzero offset printed as `0x` plus lower-case hex reads back. */
  lemma FormatParseRoundTrip(v: Stride)
    ensures IsAscii("0x" + FormatHex(v))
    ensures ParseOffset("0x" + FormatHex(v)) == Ok(v)
  {
    var s := "0x" + FormatHex(v);
    FormatHexValue(v);
    assert s[..2] == "0x" && s[2..] == FormatHex(v);
    assert Denotes(s, v);
  }

  /** The default text "0x1000" gives 4096. */
  lemma DefaultOffset()
    ensures ParseOffset("0x1000") == Ok(4096)
  {
    assert Denotes("0x1000", 4096) by {
      assert "0x1000"[2..] == "1000";
      assert "1000"[..3] == "100" && "100"[..2] == "10" && "10"[..1] == "1";
    }
  }

  /** Values that are not powers of two are accepted, and so are a `+` sign
      and upper-case digits. */
  lemma OddOffsetsAccepted()
    ensures ParseOffset("0x3") == Ok(3)
    ensures ParseOffset("0x+FF") == Ok(255)
  {
    assert Denotes("0x3", 3) by {
      assert "0x3"[2..] == "3";
    }
    assert Denotes("0x+FF", 255) by {
      assert "0x+FF"[2..] == "+FF" && "+FF"[1..] == "FF" && "FF"[..1] == "F";
    }
  }

  /** Values above 0xFFFFFFFF are rejected rather than wrapped. */
  lemma OverflowRejected()
    ensures ParseOffset("0x100000000") == Err(ParseFailed)
  {
    var digits := "100000000";
    assert "0x100000000"[2..] == digits;
    assert HexValue(digits) == 0x1_0000_0000 by {
      assert digits[..8] == "10000000";
      assert "10000000"[..7] == "1000000";
      assert "1000000"[..6] == "100000";
      assert "100000"[..5] == "10000";
      assert "10000"[..4] == "1000";
      assert "1000"[..3] == "100" && "100"[..2] == "10" && "10"[..1] == "1";
    }
    AccumulateIsHexValue(digits);
  }
}
