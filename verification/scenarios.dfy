/** Concrete key sequences and what the display shows after them. */
module Scenarios {
  import opened Options
  import opened Numerals
  import opened UInt64
  import opened Conversion
  import opened HexCalc

  /** 2^64 written in decimal. */
  const TwoToThe64: string := "18446744073709551616"

  lemma TwoToThe64Value()
    ensures IsCanonical(TwoToThe64, 10)
    ensures Value(TwoToThe64, 10) == Limit
  {
    FourDigits('1', '8', '4', '4');
    FourDigits('6', '7', '4', '4');
    FourDigits('0', '7', '3', '7');
    FourDigits('0', '9', '5', '5');
    FourDigits('1', '6', '1', '6');
    assert Pow(10, 4) == 10000;
    ValueConcat("1844", "6744", 10);
    assert "1844" + "6744" == "18446744";
    ValueConcat("18446744", "0737", 10);
    assert "18446744" + "0737" == "184467440737";
    ValueConcat("184467440737", "0955", 10);
    assert "184467440737" + "0955" == "1844674407370955";
    ValueConcat("1844674407370955", "1616", 10);
    assert "1844674407370955" + "1616" == "18446744073709551616";
  }

  /** The value of a four-digit decimal numeral. */
  lemma FourDigits(a: char, b: char, c: char, d: char)
    requires '0' <= a <= '9' && '0' <= b <= '9' && '0' <= c <= '9' && '0' <= d <= '9'
    ensures AllDigits([a, b, c, d], 10)
    ensures Value([a, b, c, d], 10)
         == ((DigitValue(a) * 10 + DigitValue(b)) * 10 + DigitValue(c)) * 10 + DigitValue(d)
  {
    ValueSnoc([], a, 10);
    ValueSnoc([a], b, 10);
    ValueSnoc([a, b], c, 10);
    ValueSnoc([a, b, c], d, 10);
    assert [] + [a] == [a] && [a] + [b] == [a, b];
    assert [a, b] + [c] == [a, b, c] && [a, b, c] + [d] == [a, b, c, d];
  }

  /** Converting the decimal numeral of 2^64 overflows: `HEX` shows `"0"`
      and still switches to hexadecimal mode. */
  lemma OverflowFallsBackToZero()
    ensures ButtonTap(State(TwoToThe64, false), Hex) == State("0", true)
  {
    TwoToThe64Value();
  }

  /** Digit entry itself is not bounded: 2^64 can be typed in decimal mode,
      so a reachable display may denote a number no 64-bit integer holds. */
  lemma EntryIsUnbounded()
    ensures Inv(State(TwoToThe64, false))
    ensures Run(Initial, Keystrokes(State(TwoToThe64, false))) == State(TwoToThe64, false)
    ensures Value(TwoToThe64, 10) >= Limit
  {
    TwoToThe64Value();
    CanonicalStatesAreReachable(State(TwoToThe64, false));
  }

  /** 0 -> 5 -> 3 gives "53"; HEX then shows "35" (53 is 0x35). */
  lemma ScenarioA()
    ensures Run(Initial, [Five, Three]) == State("53", false)
    ensures Run(Initial, [Five, Three, Hex]) == State("35", true)
  {
    EnterFiftyThree();
    RunSnoc(Initial, [Five, Three], Hex);
    assert [Five, Three] + [Hex] == [Five, Three, Hex];
    FiftyThreeToHex();
  }

  lemma EnterFiftyThree()
    ensures Run(Initial, [Five, Three]) == State("53", false)
  {
    RunSnoc(Initial, [], Five);
    RunSnoc(Initial, [Five], Three);
    assert [] + [Five] == [Five];
    assert [Five] + [Three] == [Five, Three];
  }

  lemma FiftyThreeToHex()
    ensures ButtonTap(State("53", false), Hex) == State("35", true)
  {
    TwoDigits('5', '3', 10);
    TwoDigits('3', '5', 16);
    HexShows(State("53", false), "35");
  }

  /** The value of a two-digit numeral. */
  lemma TwoDigits(a: char, b: char, radix: Radix)
    requires IsDigit(a, radix) && IsDigit(b, radix)
    ensures AllDigits([a, b], radix)
    ensures Value([a, b], radix) == DigitValue(a) * radix + DigitValue(b)
  {
    ValueSnoc([], a, radix);
    ValueSnoc([a], b, radix);
    assert [] + [a] == [a] && [a] + [b] == [a, b];
  }

  /** HEX on the initial state shows "0" in hexadecimal mode. */
  lemma ScenarioB()
    ensures ButtonTap(Initial, Hex) == State("0", true)
  {
    ValueOfZero(10);
    ValueOfZero(16);
    CanonicalUnique(ToNumeral(0, 16), "0", 16);
  }

  /** "FF" in hexadecimal mode converts to "255" in decimal mode. */
  lemma ScenarioC()
    ensures ButtonTap(State("FF", true), Hex) == State("255", false)
  {
    TwoDigits('F', 'F', 16);
    TwoDigits('2', '5', 10);
    ValueSnoc("25", '5', 10);
    assert "25" + ['5'] == "255";
    HexShows(State("FF", true), "255");
  }

  /** `A` in decimal mode changes nothing. */
  lemma ScenarioD()
    ensures ButtonTap(State("10", false), HexA) == State("10", false)
  {
  }

  /** "5" in hexadecimal mode, then A, then AC: "5A", then "0", still hexadecimal. */
  lemma ScenarioE()
    ensures ButtonTap(State("5", true), HexA) == State("5A", true)
    ensures ButtonTap(ButtonTap(State("5", true), HexA), Clear) == State("0", true)
  {
  }
}
