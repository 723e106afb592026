/** Positional numerals in a radix from 2 to 16, written with the digits
    `0-9` and the upper-case letters `A-F`. `Value` reads a numeral and
    `ToNumeral` prints a number without leading zeros; together they are
    the mathematical content of Swift's `UInt64(_:radix:)` and
    `String(_:radix:)` once the 64-bit bound is set aside. */
module Numerals {

  type Radix = r: nat | 2 <= r <= 16 witness 10

  /** b raised to the power k. */
  function Pow(b: nat, k: nat): (p: nat)
    ensures b > 0 ==> p > 0
  {
    if k == 0 then 1 else b * Pow(b, k - 1)
  }

  /** The digit of value `d`: `0`-`9`, then upper-case `A`-`F`. */
  function DigitChar(d: nat): (c: char)
    requires d < 16
  {
    if d < 10 then ('0' as int + d) as char else ('A' as int + d - 10) as char
  }

  /** The value of digit `c`, or -1 when `c` is not a digit of any radix up to 16. */
  function DigitValue(c: char): (d: int)
    ensures -1 <= d < 16
    ensures d >= 0 ==> DigitChar(d) == c
    ensures d == -1 <==> !('0' <= c <= '9' || 'A' <= c <= 'F')
  {
    if '0' <= c <= '9' then c as int - '0' as int
    else if 'A' <= c <= 'F' then c as int - 'A' as int + 10
    else -1
  }

  lemma DigitValueOfDigitChar(d: nat)
    requires d < 16
    ensures DigitValue(DigitChar(d)) == d
  {
  }

  predicate IsDigit(c: char, radix: Radix) {
    0 <= DigitValue(c) < radix
  }

  /** The digit alphabets the calculator uses: decimal is `0-9`, hexadecimal
      is `0-9` and `A-F` (never lower case). */
  lemma ModeAlphabets(c: char)
    ensures IsDigit(c, 10) <==> '0' <= c <= '9'
    ensures IsDigit(c, 16) <==> '0' <= c <= '9' || 'A' <= c <= 'F'
  {
  }

  predicate AllDigits(s: string, radix: Radix) {
    forall i :: 0 <= i < |s| ==> IsDigit(s[i], radix)
  }

  /** A non-empty string of digits of `radix`; leading zeros allowed. */
  predicate IsNumeral(s: string, radix: Radix) {
    |s| > 0 && AllDigits(s, radix)
  }

  /** A numeral as a printer writes it: `"0"`, or no leading zero. */
  predicate IsCanonical(s: string, radix: Radix) {
    IsNumeral(s, radix) && (s == "0" || s[0] != '0')
  }

  /** The number a digit string denotes, most significant digit first. */
  function Value(s: string, radix: Radix): nat
    requires AllDigits(s, radix)
    decreases |s|
  {
    if |s| == 0 then 0
    else
      var init := s[..|s| - 1];
      assert AllDigits(init, radix) by {
        forall i | 0 <= i < |init| ensures IsDigit(init[i], radix) {
          assert init[i] == s[i];
        }
      }
      Value(init, radix) * radix + DigitValue(s[|s| - 1])
  }

  /** Dropping the last digit of a numeral leaves a digit string, and of a
      canonical numeral with two or more digits, a canonical numeral. */
  lemma DropLast(s: string, radix: Radix)
    requires IsNumeral(s, radix)
    ensures s == s[..|s| - 1] + [s[|s| - 1]]
    ensures AllDigits(s[..|s| - 1], radix)
    ensures IsCanonical(s, radix) && |s| > 1 ==> IsCanonical(s[..|s| - 1], radix)
  {
    var init := s[..|s| - 1];
    assert forall i | 0 <= i < |init| :: init[i] == s[i];
  }

  /** Every decimal digit string is a hexadecimal digit string. */
  lemma DecimalDigitsAreHex(s: string)
    requires AllDigits(s, 10)
    ensures AllDigits(s, 16)
  {
  }

  /** Appending one digit shifts the value up one place. */
  lemma ValueSnoc(s: string, c: char, radix: Radix)
    requires AllDigits(s, radix) && IsDigit(c, radix)
    ensures AllDigits(s + [c], radix)
    ensures Value(s + [c], radix) == Value(s, radix) * radix + DigitValue(c)
  {
    var t := s + [c];
    assert t[..|t| - 1] == s;
  }

  /** A numeral split in two: the head shifted past the tail, plus the tail. */
  lemma {:induction false} ValueConcat(a: string, b: string, radix: Radix)
    requires AllDigits(a, radix) && AllDigits(b, radix)
    ensures AllDigits(a + b, radix)
    ensures Value(a + b, radix) == Value(a, radix) * Pow(radix, |b|) + Value(b, radix)
    decreases |b|
  {
    if |b| == 0 {
      assert a + b == a;
    } else {
      var init, c := b[..|b| - 1], b[|b| - 1];
      assert b == init + [c];
      assert AllDigits(init, radix) by {
        forall i | 0 <= i < |init| ensures IsDigit(init[i], radix) {
          assert init[i] == b[i];
        }
      }
      ValueConcat(a, init, radix);
      assert a + b == (a + init) + [c];
      ValueSnoc(a + init, c, radix);
      ValueSnoc(init, c, radix);
      assert Pow(radix, |b|) == radix * Pow(radix, |init|);
      ShiftDistributes(Value(a, radix), Pow(radix, |init|), Value(init, radix), radix, DigitValue(c));
    }
  }

  /** Reading a longer prefix never gives a smaller number. */
  lemma {:induction false} ValuePrefixMonotone(s: string, i: nat, radix: Radix)
    requires AllDigits(s, radix) && i <= |s|
    ensures AllDigits(s[..i], radix)
    ensures Value(s[..i], radix) <= Value(s, radix)
    decreases |s|
  {
    assert AllDigits(s[..i], radix) by {
      forall k | 0 <= k < i ensures IsDigit(s[..i][k], radix) {
        assert s[..i][k] == s[k];
      }
    }
    if i < |s| {
      var init := s[..|s| - 1];
      assert init[..i] == s[..i];
      ValuePrefixMonotone(init, i, radix);
      ShiftGrows(Value(init, radix), radix, DigitValue(s[|s| - 1]));
    } else {
      assert s[..i] == s;
    }
  }

  /** A numeral that does not start with `0` denotes at least radix^(|s|-1). */
  lemma {:induction false} LeadingDigitBound(s: string, radix: Radix)
    requires IsNumeral(s, radix) && s[0] != '0'
    ensures Value(s, radix) >= Pow(radix, |s| - 1)
    decreases |s|
  {
    if |s| > 1 {
      var init := s[..|s| - 1];
      assert init[0] == s[0];
      LeadingDigitBound(init, radix);
      MulLe(Pow(radix, |s| - 2), Value(init, radix), radix);
    }
  }

  /** The canonical numeral of `n`: the digits of `n`, no leading zero. */
  function ToNumeral(n: nat, radix: Radix): (s: string)
    ensures IsCanonical(s, radix)
    ensures Value(s, radix) == n
    decreases n
  {
    if n < radix then
      ValueSnoc([], DigitChar(n), radix);
      [DigitChar(n)]
    else
      var q, d := n / radix, n % radix;
      DivModStep(n, radix);
      var init := ToNumeral(q, radix);
      ValueOfZero(radix);
      assert init != "0";
      var c := DigitChar(d);
      ValueSnoc(init, c, radix);
      assert (init + [c])[0] == init[0];
      init + [c]
  }

  lemma ValueOfZero(radix: Radix)
    ensures AllDigits("0", radix)
    ensures Value("0", radix) == 0
  {
    ValueSnoc([], '0', radix);
    assert [] + ['0'] == "0";
  }

  /** Printing what a canonical numeral denotes gives the numeral back. */
  lemma {:induction false} ToNumeralOfValue(s: string, radix: Radix)
    requires IsCanonical(s, radix)
    ensures ToNumeral(Value(s, radix), radix) == s
    decreases |s|
  {
    var n := Value(s, radix);
    var last := s[|s| - 1];
    var init := s[..|s| - 1];
    assert s == init + [last];
    ValueSnoc(init, last, radix);
    if |s| == 1 {
      assert init == [];
      assert n == DigitValue(last);
    } else {
      assert init[0] == s[0];
      assert IsCanonical(init, radix);
      LeadingDigitBound(init, radix);
      MulLe(1, Value(init, radix), radix);
      ShiftIn(Value(init, radix), DigitValue(last), radix);
      ToNumeralOfValue(init, radix);
      assert ToNumeral(n, radix) == ToNumeral(Value(init, radix), radix) + [DigitChar(DigitValue(last))];
    }
  }

  /** Two canonical numerals of the same radix denote the same number only
      when they are the same string. */
  lemma CanonicalUnique(s: string, t: string, radix: Radix)
    requires IsCanonical(s, radix) && IsCanonical(t, radix)
    ensures Value(s, radix) == Value(t, radix) <==> s == t
  {
    if Value(s, radix) == Value(t, radix) {
      ToNumeralOfValue(s, radix);
      ToNumeralOfValue(t, radix);
    }
  }

  /** A number below radix^k prints with at most k digits. */
  lemma ToNumeralLength(n: nat, k: nat, radix: Radix)
    requires 1 <= k && n < Pow(radix, k)
    ensures |ToNumeral(n, radix)| <= k
  {
    var s := ToNumeral(n, radix);
    if |s| > k {
      LeadingDigitBound(s, radix);
      PowMonotone(radix, k, |s| - 1);
      assert false;
    }
  }

  lemma {:induction false} PowMonotone(b: nat, i: nat, j: nat)
    requires b >= 1 && i <= j
    ensures Pow(b, i) <= Pow(b, j)
    decreases j
  {
    if i < j {
      PowMonotone(b, i, j - 1);
    }
  }

  lemma ShiftIn(q: nat, d: nat, r: nat)
    requires d < r
    ensures (q * r + d) / r == q && (q * r + d) % r == d
  {
    var n := q * r + d;
    var k := q - n / r;
    assert k * r == n % r - d;
    if k >= 1 { assert false; }
    if k <= -1 { assert false; }
  }

  lemma DivModStep(n: nat, r: Radix)
    requires n >= r
    ensures n == n / r * r + n % r
    ensures 1 <= n / r < n && n % r < r
  {
  }

  lemma ShiftDistributes(x: nat, p: nat, y: nat, r: nat, d: nat)
    ensures (x * p + y) * r + d == x * (r * p) + (y * r + d)
  {
  }

  lemma MulLe(a: nat, b: nat, r: nat)
    requires a <= b
    ensures a * r <= b * r
  {
  }

  lemma ShiftGrows(v: nat, r: nat, d: nat)
    requires r >= 1
    ensures v <= v * r + d
  {
    MulLe(1, r, v);
  }
}
