/** The value state of the calculator view and its button handling: the
    displayed text `value` and the flag `isHexMode`, starting at `"0"` in
    decimal mode, changed only by `ButtonTap`. */
module HexCalc {
  import opened Options
  import opened Numerals
  import opened UInt64
  import opened Conversion

  /** The calculator's keys, with the labels they carry. */
  datatype Button =
    | One | Two | Three | Four | Five | Six | Seven | Eight | Nine | Zero
    | Clear
    | Hex
    | HexA | HexB | HexC | HexD | HexE | HexF

  function RawValue(b: Button): string {
    match b
    case One => "1"
    case Two => "2"
    case Three => "3"
    case Four => "4"
    case Five => "5"
    case Six => "6"
    case Seven => "7"
    case Eight => "8"
    case Nine => "9"
    case Zero => "0"
    case Clear => "AC"
    case Hex => "HEX"
    case HexA => "A"
    case HexB => "B"
    case HexC => "C"
    case HexD => "D"
    case HexE => "E"
    case HexF => "F"
  }

  /** The keys `A` to `F`. */
  predicate IsLetter(b: Button) {
    b.HexA? || b.HexB? || b.HexC? || b.HexD? || b.HexE? || b.HexF?
  }

  /** Every key except `AC` and `HEX` enters a digit. */
  predicate IsDigitKey(b: Button) {
    !b.Clear? && !b.Hex?
  }

  /** A digit key's label is the single digit it enters: a decimal digit
      for `0`-`9`, a hexadecimal letter for `A`-`F`. */
  lemma DigitKeyLabel(b: Button)
    requires IsDigitKey(b)
    ensures |RawValue(b)| == 1 && IsDigit(RawValue(b)[0], 16)
    ensures IsDigit(RawValue(b)[0], 10) <==> !IsLetter(b)
  {
  }

  /** The key that enters hexadecimal digit `c`. */
  function KeyFor(c: char): (b: Button)
    requires IsDigit(c, 16)
    ensures IsDigitKey(b) && RawValue(b) == [c]
    ensures IsLetter(b) <==> !IsDigit(c, 10)
  {
    match c
    case '1' => One
    case '2' => Two
    case '3' => Three
    case '4' => Four
    case '5' => Five
    case '6' => Six
    case '7' => Seven
    case '8' => Eight
    case '9' => Nine
    case '0' => Zero
    case 'A' => HexA
    case 'B' => HexB
    case 'C' => HexC
    case 'D' => HexD
    case 'E' => HexE
    case 'F' => HexF
  }

  datatype State = State(value: string, isHexMode: bool)

  /** `value` starts as `"0"` and `isHexMode` as false. */
  const Initial: State := State("0", false)

  /** The radix the display is read in. */
  function ModeRadix(isHexMode: bool): Radix {
    if isHexMode then 16 else 10
  }

  /** The invariant of every reachable state: `value` is a canonical numeral
      of the current mode (non-empty, only `0-9`, or `0-9A-F` in hex mode,
      and `"0"` or no leading zero). */
  predicate Inv(s: State) {
    IsCanonical(s.value, ModeRadix(s.isHexMode))
  }

  /** `appendDigit`: a digit replaces the placeholder `"0"`, and is appended
      to anything else. */
  function AppendDigit(value: string, digit: string): string {
    if value == "0" then digit else value + digit
  }

  /** Entering a digit of the radix into a canonical numeral shifts it in as
      the new least significant digit, and the text stays canonical. */
  lemma AppendDigitShiftsIn(value: string, c: char, radix: Radix)
    requires IsCanonical(value, radix) && IsDigit(c, radix)
    ensures IsCanonical(AppendDigit(value, [c]), radix)
    ensures Value(AppendDigit(value, [c]), radix) == Value(value, radix) * radix + DigitValue(c)
  {
    if value == "0" {
      ValueOfZero(radix);
      ValueSnoc([], c, radix);
      assert [] + [c] == [c];
    } else {
      ValueSnoc(value, c, radix);
      assert (value + [c])[0] == value[0];
    }
  }

  /** `buttonTap`: one key press. */
  function ButtonTap(s: State, b: Button): (r: State)
    ensures b == Clear ==> r == State("0", s.isHexMode)
    ensures b == Hex ==> r.isHexMode == !s.isHexMode
    ensures b == Hex ==>
      var n := ParseUInt64(s.value, ModeRadix(s.isHexMode));
      && (n.None? ==> r.value == "0")
      && (n.Some? ==> IsCanonical(r.value, ModeRadix(r.isHexMode)) && Value(r.value, ModeRadix(r.isHexMode)) == n.value)
    ensures IsLetter(b) && !s.isHexMode ==> r == s
    ensures IsDigitKey(b) && (s.isHexMode || !IsLetter(b)) ==>
      r.isHexMode == s.isHexMode
      && r.value == (if s.value == "0" then RawValue(b) else s.value + RawValue(b))
  {
    match b
    case Clear => State("0", s.isHexMode)
    case Hex =>
      if s.isHexMode then State(HexToDecimal(s.value).GetOr("0"), false)
      else State(DecimalToHex(s.value).GetOr("0"), true)
    case HexA | HexB | HexC | HexD | HexE | HexF =>
      if !s.isHexMode then s else State(AppendDigit(s.value, RawValue(b)), s.isHexMode)
    case _ => State(AppendDigit(s.value, RawValue(b)), s.isHexMode)
  }

  /** The state after pressing `keys` in order. */
  function Run(s: State, keys: seq<Button>): State
    decreases |keys|
  {
    if |keys| == 0 then s else ButtonTap(Run(s, keys[..|keys| - 1]), keys[|keys| - 1])
  }

  lemma RunSnoc(s: State, keys: seq<Button>, b: Button)
    ensures Run(s, keys + [b]) == ButtonTap(Run(s, keys), b)
  {
    assert (keys + [b])[..|keys|] == keys;
  }

  /** Every key press keeps the invariant. */
  lemma ButtonTapPreservesInv(s: State, b: Button)
    requires Inv(s)
    ensures Inv(ButtonTap(s, b))
  {
    var radix := ModeRadix(s.isHexMode);
    if b == Clear {
      ValueOfZero(radix);
    } else if b == Hex {
      ValueOfZero(ModeRadix(!s.isHexMode));
    } else if IsLetter(b) && !s.isHexMode {
    } else {
      DigitKeyLabel(b);
      var c := RawValue(b)[0];
      assert RawValue(b) == [c];
      AppendDigitShiftsIn(s.value, c, radix);
    }
  }

  /** Any sequence of key presses from a state satisfying the invariant ends
      in one that satisfies it; in particular every state reachable from
      `Initial` does. */
  lemma {:induction false} RunPreservesInv(s: State, keys: seq<Button>)
    requires Inv(s)
    ensures Inv(Run(s, keys))
    decreases |keys|
  {
    if |keys| > 0 {
      RunPreservesInv(s, keys[..|keys| - 1]);
      ButtonTapPreservesInv(Run(s, keys[..|keys| - 1]), keys[|keys| - 1]);
    }
  }

  lemma ReachableStatesAreCanonical(keys: seq<Button>)
    ensures Inv(Run(Initial, keys))
  {
    ValueOfZero(10);
    RunPreservesInv(Initial, keys);
  }

  /** The keys that type the digits of `v`, in order. */
  function Typing(v: string): (keys: seq<Button>)
    requires AllDigits(v, 16)
    ensures |keys| == |v|
    ensures forall i :: 0 <= i < |v| ==> RawValue(keys[i]) == [v[i]]
  {
    seq(|v|, i requires 0 <= i < |v| => KeyFor(v[i]))
  }

  lemma TypingSnoc(v: string, c: char)
    requires AllDigits(v, 16) && IsDigit(c, 16)
    ensures AllDigits(v + [c], 16)
    ensures Typing(v + [c]) == Typing(v) + [KeyFor(c)]
  {
  }

  /** Pressing the key of a digit the mode accepts runs `appendDigit`. */
  lemma EnterDigit(keys: seq<Button>, w: string, c: char, isHexMode: bool)
    requires Run(Initial, keys) == State(w, isHexMode)
    requires IsDigit(c, ModeRadix(isHexMode))
    ensures Run(Initial, keys + [KeyFor(c)]) == State(AppendDigit(w, [c]), isHexMode)
  {
    RunSnoc(Initial, keys, KeyFor(c));
  }

  /** Typing a canonical numeral of the mode, starting from `"0"`, leaves
      exactly that numeral on the display. */
  lemma {:induction false} TypingEntersNumeral(pre: seq<Button>, v: string, isHexMode: bool)
    requires Run(Initial, pre) == State("0", isHexMode)
    requires IsCanonical(v, ModeRadix(isHexMode))
    ensures Run(Initial, pre + Typing(v)) == State(v, isHexMode)
    decreases |v|
  {
    var c, init := v[|v| - 1], v[..|v| - 1];
    DropLast(v, ModeRadix(isHexMode));
    if !isHexMode {
      DecimalDigitsAreHex(init);
    }
    TypingSnoc(init, c);
    var before := pre + Typing(init);
    assert pre + Typing(v) == before + [KeyFor(c)];
    if |v| == 1 {
      assert before == pre;
      EnterDigit(before, "0", c, isHexMode);
    } else {
      TypingEntersNumeral(pre, init, isHexMode);
      EnterDigit(before, init, c, isHexMode);
    }
  }

  /** A key sequence that reaches `s` from `Initial`. */
  function Keystrokes(s: State): seq<Button>
    requires Inv(s)
  {
    (if s.isHexMode then [Hex] else []) + Typing(s.value)
  }

  /** Conversely, every state satisfying the invariant is reachable, so the
      invariant describes the reachable states exactly. */
  lemma CanonicalStatesAreReachable(s: State)
    requires Inv(s)
    ensures Run(Initial, Keystrokes(s)) == s
  {
    var pre: seq<Button> := if s.isHexMode then [Hex] else [];
    if s.isHexMode {
      RunSnoc(Initial, [], Hex);
      assert [] + [Hex] == [Hex];
      ValueOfZero(10);
    }
    TypingEntersNumeral(pre, s.value, s.isHexMode);
  }

  /** An accepted digit key multiplies the displayed number by the radix and
      adds the digit; the mode does not change. */
  lemma DigitEntryShiftsIn(s: State, b: Button)
    requires Inv(s) && IsDigitKey(b) && (s.isHexMode || !IsLetter(b))
    ensures ButtonTap(s, b).isHexMode == s.isHexMode
    ensures Value(ButtonTap(s, b).value, ModeRadix(s.isHexMode))
         == Value(s.value, ModeRadix(s.isHexMode)) * ModeRadix(s.isHexMode) + DigitValue(RawValue(b)[0])
  {
    DigitKeyLabel(b);
    var c := RawValue(b)[0];
    assert RawValue(b) == [c];
    AppendDigitShiftsIn(s.value, c, ModeRadix(s.isHexMode));
  }

  /** From a reachable state, `HEX` keeps the displayed number when it is
      below 2^64 and shows `"0"` otherwise; the mode flips either way. */
  lemma HexConvertsOrFallsBack(s: State)
    requires Inv(s)
    ensures ButtonTap(s, Hex).isHexMode == !s.isHexMode
    ensures Value(s.value, ModeRadix(s.isHexMode)) < Limit ==>
      Value(ButtonTap(s, Hex).value, ModeRadix(!s.isHexMode)) == Value(s.value, ModeRadix(s.isHexMode))
    ensures Value(s.value, ModeRadix(s.isHexMode)) >= Limit ==> ButtonTap(s, Hex).value == "0"
  {
  }

  /** From a reachable state whose number fits in 64 bits, `HEX` shows the
      canonical numeral of that number in the other radix. */
  lemma HexShows(s: State, t: string)
    requires Inv(s) && Value(s.value, ModeRadix(s.isHexMode)) < Limit
    requires IsCanonical(t, ModeRadix(!s.isHexMode))
    requires Value(t, ModeRadix(!s.isHexMode)) == Value(s.value, ModeRadix(s.isHexMode))
    ensures ButtonTap(s, Hex) == State(t, !s.isHexMode)
  {
    CanonicalUnique(ButtonTap(s, Hex).value, t, ModeRadix(!s.isHexMode));
  }

  /** Pressing `HEX` twice from a reachable state whose number fits in 64
      bits restores the state. */
  lemma HexTwiceRestores(s: State)
    requires Inv(s) && Value(s.value, ModeRadix(s.isHexMode)) < Limit
    ensures ButtonTap(ButtonTap(s, Hex), Hex) == s
  {
    if s.isHexMode {
      HexDecimalRoundTrip(s.value);
    } else {
      DecimalHexRoundTrip(s.value);
    }
  }
}
