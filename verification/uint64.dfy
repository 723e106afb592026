/** Swift's `UInt64(_:radix:)` restricted to digit text: it yields `nil`
    for text that is not a numeral of the radix and for a numeral that
    denotes 2^64 or more. */
module UInt64 {
  import opened Options
  import opened Numerals

  /** 2^64: the least value an unsigned 64-bit integer cannot hold. */
  const Limit: nat := 0x1_0000_0000_0000_0000

  /** The reference reading of `UInt64(s, radix: radix)`. */
  function ParseUInt64(s: string, radix: Radix): Option<nat> {
    if IsNumeral(s, radix) && Value(s, radix) < Limit then Some(Value(s, radix)) else None
  }

  /** `UInt64(s, radix: radix)` as a digit-by-digit parse whose accumulator
      never leaves the 64-bit range: before each step it checks that
      `acc * radix + d` still fits, the way a fixed-width parse must. */
  method ParseUInt64Accumulating(s: string, radix: Radix) returns (r: Option<nat>)
    ensures r == ParseUInt64(s, radix)
    ensures r.Some? ==> r.value < Limit
  {
    if |s| == 0 {
      return None;
    }
    var acc: nat := 0;
    var i := 0;
    while i < |s|
      invariant 0 <= i <= |s|
      invariant AllDigits(s[..i], radix)
      invariant acc == Value(s[..i], radix)
      invariant acc < Limit
    {
      var d := DigitValue(s[i]);
      if !(0 <= d < radix) {
        return None;
      }
      ValueSnoc(s[..i], s[i], radix);
      assert s[..i] + [s[i]] == s[..i + 1];
      if acc > (Limit - 1 - d) / radix {
        // acc * radix + d would overflow: every longer prefix is too large too
        OverflowStep(acc, d, radix);
        if AllDigits(s, radix) {
          ValuePrefixMonotone(s, i + 1, radix);
        }
        return None;
      }
      NoOverflowStep(acc, d, radix);
      acc := acc * radix + d;
      i := i + 1;
    }
    assert s[..i] == s;
    return Some(acc);
  }

  lemma OverflowStep(acc: nat, d: nat, radix: Radix)
    requires d < radix && acc > (Limit - 1 - d) / radix
    ensures acc * radix + d >= Limit
  {
    var q := (Limit - 1 - d) / radix;
    assert Limit - 1 - d < (q + 1) * radix;
    MulLe(q + 1, acc, radix);
  }

  lemma NoOverflowStep(acc: nat, d: nat, radix: Radix)
    requires d < radix && acc <= (Limit - 1 - d) / radix
    ensures acc * radix + d < Limit
  {
    var q := (Limit - 1 - d) / radix;
    assert q * radix <= Limit - 1 - d;
    MulLe(acc, q, radix);
  }
}
