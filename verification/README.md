# HEXCalc value engine in Dafny

HEXCalc is a single-screen iOS calculator. It shows one text `value` and has
one flag, `isHexMode`. Digit keys append to the text. `AC` clears it to `"0"`.
`HEX` converts the text between decimal and hexadecimal and flips the mode.
The conversions go through Swift's `UInt64(_:radix:)`. Any value that does
not fit in 64 bits becomes `"0"`.

This project models that engine as pure functions over an immutable state:

- `options.dfy` (`Options`): the optional value that stands for Swift's `T?`.
- `numerals.dfy` (`Numerals`): digit strings in a radix up to 16, written
  `0-9A-F`.
  - `Value` reads a digit string as a number.
  - `ToNumeral` prints a number with no leading zeros.
  - Lemmas show that the two are inverse on canonical numerals.
- `uint64.dfy` (`UInt64`): the 64-bit bound `Limit` = 2^64.
  - `ParseUInt64` is the reference reading of `UInt64(_:radix:)`.
  - `ParseUInt64Accumulating` parses one digit at a time with a bounded
    accumulator and is proved to agree with the reference.
- `conversion.dfy` (`Conversion`): `decimalToHex` and `hexToDecimal`, with
  round-trip lemmas in both directions.
- `hexcalc.dfy` (`HexCalc`): the key set `CalculatorButtons`, the state
  `(value, isHexMode)`, `appendDigit` and `buttonTap`. It also proves that
  the reachable states are exactly the canonical numerals of the current mode.
- `scenarios.dfy` (`Scenarios`): concrete key sequences, including the
  overflow at 2^64.

The view's state holds a digit string, so the model works over the digit
alphabet. Swift's `UInt64(_:radix:)` is modelled as the mathematical base-b
reading, rejected at 2^64 and above. `String(n, radix: 16).uppercased()` is
modelled as one printer that writes upper-case letters.

## Model

| member | source | states |
|---|---|---|
| `UInt64.ParseUInt64Accumulating` | HEXCalc.swift:83 | The digit-by-digit 64-bit parse returns `nil` exactly when the text is empty, has a character outside the radix's digits, or denotes 2^64 or more. Otherwise it returns the number the text denotes. Its accumulator never leaves the 64-bit range. |
| `Conversion.DecimalToHex` | HEXCalc.swift:81-85 | Succeeds exactly for a decimal numeral below 2^64. On success the output is a hexadecimal numeral in `0-9A-F` with no leading zero and at most 16 digits, and it denotes the same number. |
| `Conversion.HexToDecimal` | HEXCalc.swift:87-91 | Succeeds exactly for a hexadecimal numeral below 2^64. On success the output is a decimal numeral with no leading zero and at most 20 digits, and it denotes the same number. |
| `Conversion.DecimalHexRoundTrip` | HEXCalc.swift:81-91 | For a canonical decimal numeral below 2^64, `hexToDecimal(decimalToHex(s)) == s`. |
| `Conversion.HexDecimalRoundTrip` | HEXCalc.swift:81-91 | For a canonical upper-case hexadecimal numeral below 2^64, `decimalToHex(hexToDecimal(h)) == h`. |
| `Numerals.ToNumeral` | HEXCalc.swift:84 | Printing a number in a radix gives a numeral with no leading zero, or `"0"`, that reads back as the same number. |
| `Numerals.ToNumeralOfValue` | HEXCalc.swift:84 | Printing the number a canonical numeral denotes gives back that numeral. |
| `Numerals.CanonicalUnique` | HEXCalc.swift:84 | Two canonical numerals of one radix denote the same number if and only if they are the same string. |
| `Numerals.ModeAlphabets` | HEXCalc.swift:5-9 | The decimal digits are `0-9`. The hexadecimal digits are `0-9` and `A-F`, matching the key labels. |
| `HexCalc.KeyFor` | HEXCalc.swift:4-9 | Each of the 16 digits has a key whose raw value is that one digit. It is a letter key exactly when the digit is not decimal. |
| `HexCalc.DigitKeyLabel` | HEXCalc.swift:4-9 | Every key other than `AC` and `HEX` has a one-character hexadecimal digit as its raw value. That digit is decimal exactly when the key is not `A`-`F`. |
| `HexCalc.AppendDigitShiftsIn` | HEXCalc.swift:94-100 | Entering a digit into a canonical numeral keeps it canonical. The entered digit becomes the new last digit, so the number becomes `old * radix + digit`. This includes the case where the digit replaces the placeholder `"0"`. |
| `HexCalc.ButtonTap` | HEXCalc.swift:102-132 | `AC` sets `value` to `"0"` and keeps the mode. `HEX` always flips the mode and shows either `"0"` (parse failed) or a canonical numeral of the parsed number in the new radix. `A`-`F` change nothing in decimal mode. Any other accepted digit replaces `"0"` or is appended, and the mode is kept. |
| `HexCalc.ButtonTapPreservesInv` | HEXCalc.swift:102-132 | Every key press keeps the invariant: `value` is non-empty, uses only the current mode's digits, and is `"0"` or has no leading zero. |
| `HexCalc.RunPreservesInv` | HEXCalc.swift:102-132 | Any sequence of key presses from a state that satisfies the invariant ends in a state that satisfies it. |
| `HexCalc.ReachableStatesAreCanonical` | HEXCalc.swift:22-23 | Every state reachable from `("0", false)` satisfies the invariant. |
| `HexCalc.CanonicalStatesAreReachable` | HEXCalc.swift:94-130 | Conversely, every state that satisfies the invariant can be reached from `("0", false)`. Optionally press `HEX`, then type the digits. |
| `HexCalc.DigitEntryShiftsIn` | HEXCalc.swift:125-130 | From a reachable state, an accepted digit key keeps the mode and turns the displayed number into `old * radix + digit`. |
| `HexCalc.HexConvertsOrFallsBack` | HEXCalc.swift:106-124 | From a reachable state, `HEX` flips the mode. It keeps the displayed number when that number is below 2^64 and shows `"0"` otherwise. |
| `HexCalc.HexShows` | HEXCalc.swift:106-124 | From a reachable state below 2^64, `HEX` shows exactly the canonical numeral of the same number in the other radix. |
| `HexCalc.HexTwiceRestores` | HEXCalc.swift:106-124 | Pressing `HEX` twice from a reachable state whose number is below 2^64 restores both `value` and `isHexMode`. |
| `Scenarios.OverflowFallsBackToZero` | HEXCalc.swift:118-123 | Decimal `"18446744073709551616"` (2^64) converts to `("0", true)`. |
| `Scenarios.EntryIsUnbounded` | HEXCalc.swift:94-100 | 2^64 can be typed in decimal mode. So a reachable display can denote a number that no 64-bit integer holds. |
| `Scenarios.ScenarioA` | HEXCalc.swift:94-124 | From the start, `5` and `3` give `("53", false)`. Then `HEX` gives `("35", true)`. |
| `Scenarios.ScenarioB` | HEXCalc.swift:116-123 | `HEX` on the initial state gives `("0", true)`. |
| `Scenarios.ScenarioC` | HEXCalc.swift:108-115 | `("FF", true)` with `HEX` gives `("255", false)`. |
| `Scenarios.ScenarioD` | HEXCalc.swift:125-127 | `A` on `("10", false)` changes nothing. |
| `Scenarios.ScenarioE` | HEXCalc.swift:104-105 | `A` on `("5", true)` gives `("5A", true)`. Then `AC` gives `("0", true)`. |

## Left out

- The SwiftUI view (`body`, the grid layout, `columns`, fonts, colours, `buttonColor`) and the preview struct. They are presentation only.
- `gridButtons`. It decides which keys are shown. `ButtonTap` filters `A`-`F` in decimal mode whether or not they are shown.
- UInt64.ParseUInt64Accumulating: Swift also accepts a leading `+` or `-` sign and lower-case hexadecimal letters. The model rejects both. Neither can reach the parse, because `value` only ever holds `0-9` and `A-F`.
- Conversion.DecimalToHex: the whitespace trimming before the parse (in `hexToDecimal` too) is not modelled. `value` never contains whitespace, so trimming is the identity on every reachable input.
- `String(n, radix: 16).uppercased()` is modelled as a single printer that writes `A`-`F` directly. The lower-case intermediate string is not modelled.
- The 64-bit range is not treated as an invariant of the display. The code bounds a number only when it converts it. Digit entry itself is unbounded, as `Scenarios.EntryIsUnbounded` shows. The model follows the code.
