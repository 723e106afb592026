/** The two conversion helpers of the calculator view: each parses its
    input as an unsigned 64-bit integer in one radix and, when that
    succeeds, prints the number in the other radix (hexadecimal in upper
    case), with no leading zeros. */
module Conversion {
  import opened Options
  import opened Numerals
  import opened UInt64

  /** `decimalToHex`: a decimal numeral below 2^64 to its upper-case
      hexadecimal numeral; `None` for anything else. */
  function DecimalToHex(s: string): (r: Option<string>)
    ensures r.Some? <==> IsNumeral(s, 10) && Value(s, 10) < Limit
    ensures r.Some? ==> IsCanonical(r.value, 16) && Value(r.value, 16) == Value(s, 10)
    ensures r.Some? ==> |r.value| <= 16
  {
    match ParseUInt64(s, 10)
    case None => None
    case Some(n) =>
      PowersOfTheLimit();
      ToNumeralLength(n, 16, 16);
      Some(ToNumeral(n, 16))
  }

  /** `hexToDecimal`: an upper-case hexadecimal numeral below 2^64 to its
      decimal numeral; `None` for anything else. */
  function HexToDecimal(s: string): (r: Option<string>)
    ensures r.Some? <==> IsNumeral(s, 16) && Value(s, 16) < Limit
    ensures r.Some? ==> IsCanonical(r.value, 10) && Value(r.value, 10) == Value(s, 16)
    ensures r.Some? ==> |r.value| <= 20
  {
    match ParseUInt64(s, 16)
    case None => None
    case Some(n) =>
      PowersOfTheLimit();
      ToNumeralLength(n, 20, 10);
      Some(ToNumeral(n, 10))
  }

  /** 2^64 is exactly 16^16 and below 10^20, so a 64-bit value takes at
      most 16 hexadecimal or 20 decimal digits. */
  lemma PowersOfTheLimit()
    ensures Pow(16, 16) == Limit
    ensures Limit < Pow(10, 20)
  {
    assert Pow(16, 4) == 0x1_0000;
    assert Pow(16, 8) == 0x1_0000_0000 by { PowAdd(16, 4, 4); }
    assert Pow(16, 16) == Limit by { PowAdd(16, 8, 8); }
    assert Pow(10, 5) == 100_000;
    assert Pow(10, 10) == 100_000 * 100_000 by { PowAdd(10, 5, 5); }
    assert Pow(10, 20) == 100_000 * 100_000 * 100_000 * 100_000 by { PowAdd(10, 10, 10); }
  }

  lemma {:induction false} PowAdd(b: nat, i: nat, j: nat)
    ensures Pow(b, i + j) == Pow(b, i) * Pow(b, j)
    decreases j
  {
    if j > 0 {
      PowAdd(b, i, j - 1);
      assert Pow(b, i + j) == b * Pow(b, i + j - 1);
      assert Pow(b, i) * Pow(b, j) == Pow(b, i) * (b * Pow(b, j - 1));
    }
  }

  /** Decimal to hexadecimal and back restores a canonical decimal numeral
      below 2^64. */
  lemma DecimalHexRoundTrip(s: string)
    requires IsCanonical(s, 10) && Value(s, 10) < Limit
    ensures DecimalToHex(s).Some?
    ensures HexToDecimal(DecimalToHex(s).value) == Some(s)
  {
    var h := DecimalToHex(s).value;
    ToNumeralOfValue(s, 10);
    assert HexToDecimal(h).value == ToNumeral(Value(h, 16), 10);
  }

  /** Hexadecimal to decimal and back restores a canonical upper-case
      hexadecimal numeral below 2^64. */
  lemma HexDecimalRoundTrip(h: string)
    requires IsCanonical(h, 16) && Value(h, 16) < Limit
    ensures HexToDecimal(h).Some?
    ensures DecimalToHex(HexToDecimal(h).value) == Some(h)
  {
    var s := HexToDecimal(h).value;
    ToNumeralOfValue(h, 16);
    assert DecimalToHex(s).value == ToNumeral(Value(s, 10), 16);
  }
}
