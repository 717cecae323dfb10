# NiL.JS `Tools`: number scanning, escapes, comments, text positions and value coercion

This project models the core of `NiL.JS/Core/Tools.cs`, the static helper
class of the NiL.JS JavaScript engine. The model covers these parts:

- **`ParseNumber`**, the numeric-literal scanner, with its character
  helpers. `isDigit`, `isLineTerminator`, `anum`, `isHex` and the
  `NumChars` table are in module `Chars`.
  - Module `NumberSpec` states what a scan yields as functions of the
    text: the leading white-space skip, the "NaN" and "Infinity" words,
    the sign, and the auto-radix prefix (`0x`, legacy octal, skipped
    zeros). It also states the decimal branch (19 stored digits, the
    `deg` scale and the exponent, whose `int` wraps) and the integer
    branch (case-insensitive `0-9A-Z` digits).
  - Module `NumberScan` is the scanner itself: an imperative method with
    its loops, proved to compute `ParseNumberSpec`.
  - Module `NumberProps` proves properties of the specification.
- **`Unescape`** (module `Escapes`). The decoding is a function over the
  text. The source's loop, with its lazily created `StringBuilder`, is a
  method proved to compute it. Round trips with two escaping functions are
  proved.
- **`skipComment` and `RemoveComments`** (module `Comments`). Both are
  specification functions plus the source's loops as methods proved equal
  to them. Properties of the blanking are proved separately.
- **`PositionToTextcord`** (module `TextPosition`). The loop is a method
  proved equal to a recursive walk. Further lemmas give:
  - its errors;
  - its column, counted from the start of the line;
  - its exact line count, where an LF CR or CR LF pair ends one line.
- **`JSObjectToDouble`, `JSObjectToInt32`, `JSObjectToInt64` and
  `JSObjectToNumber`** (module `Coercion`). Each is a function over a
  tagged value: Undefined, NotExists, NotExistsInObject, Bool, Int,
  Double, String, Date, Function or Object. The lemmas cover:
  - where `nullOrUndef` is used;
  - where `alternateInfinity` matters;
  - how the four conversions relate to one another;
  - that white space around a string does not matter.

Some inputs make the source throw. Each of those outcomes, whether a
`JSException` or a .NET exception, is a `Result` error:

- `SyntaxError`;
- `ReferenceError`;
- `IndexOutOfRange`, for array reads past the end of the text;
- `ArgumentOutOfRange`;
- `Overflow`, for the `OverflowException` of the `decimal` multiplication
  that rebuilds a mantissa of 29 or more digits;
- `NotImplemented`, for the `default` branch of a type switch.

Strings are sequences of UTF-16 code units (`CodeUnit`, 0..0xFFFF), not
Dafny `char`s, because `\u` escapes can produce lone surrogates.

Behaviour kept as written:

- `ParseNumber` reads one code unit past the end for some inputs, such as
  "00" and "1e". The model gives `IndexOutOfRange` there
  (`NumberProps.DoubleZeroReadsPastEnd`,
  `NumberProps.TrailingExponentReadsPastEnd`).
- A ',' after the exponent's 'e' counts as a sign of zero.
- `Unescape` combines up to three digits of a digit escape in base ten.
- `JSObjectToNumber` gives 0 for Undefined and for a missing property.
- The integer conversions parse strings with
  `ParseNumberOptions.Default`, which includes AllowFloat. Only
  `JSObjectToDouble` uses `AllowFloat | AllowAutoRadix`.
- In the decimal branch, fraction digits past the 19th are dropped without
  changing `deg`.
- A zero mantissa with a scale of 319 or more is multiplied by an infinite
  power of ten, so "00e400" scans as NaN rather than raising the
  skipped-zeros SyntaxError.
- `(double)temp` of a `ulong` is exact only below 2^53, so the value of a
  larger integer is left to the rounding parameter.

## Model

| member | source | states |
|---|---|---|
| Base.Wrap32 | NiL.JS/Core/Tools.cs:144 | the unchecked `(int)` of a `long`: congruent to its argument modulo 2^32 and the identity on the `int` range |
| Base.AppendRange | NiL.JS/Core/Tools.cs:776-777 | appending `code[from..to]` to a builder yields exactly the old contents followed by that slice |
| Chars.LineTerminatorIsWhiteSpace | NiL.JS/Core/Tools.cs:387 | every line terminator is .NET white space, which is why the number scanner excludes terminators explicitly |
| Chars.NumCharsAt | NiL.JS/Core/Tools.cs:23-27 | `NumChars` has 36 entries, '0'-'9' then 'A'-'Z' |
| Chars.Anum | NiL.JS/Core/Tools.cs:872-875 | `anum` of any code unit lies in 0..57 |
| Chars.AnumOfAlnum | NiL.JS/Core/Tools.cs:872-875 | on ASCII letters and digits `anum` is the case-insensitive digit value 0-35 |
| Chars.AcceptsDigitIff | NiL.JS/Core/Tools.cs:575-576 | the integer branch's digit test (`anum` below the radix and `NumChars` holding the character in either case) accepts exactly the letters and digits whose value is below the radix |
| Chars.AcceptedValue | NiL.JS/Core/Tools.cs:575-586 | an accepted character's `anum` is its digit value and below the radix |
| Chars.IsHexAcceptsPunctuation | NiL.JS/Core/Tools.cs:859-867 | `isHex` as written accepts ':' ';' '<' '=' '>' '?', which are not hexadecimal digits |
| Chars.IsHexDigitIff | NiL.JS/Core/Tools.cs:859-867 | the corrected test accepts exactly the letters and digits of value below 16, each also accepted by `isHex` |
| Chars.IsHex | NiL.JS/Core/Tools.cs:859-867 | `isHex` accepts exactly the code units '0' to '?', 'A' to 'F' and 'a' to 'f' |
| Chars.RunEnd | NiL.JS/Core/Tools.cs:757-758 | a scan loop stops at the first code unit not accepted (or the end), having accepted every code unit before it |
| NumberSpec.ZeroRun | NiL.JS/Core/Tools.cs:425-429 | the zero-skipping loop crosses only zeros and stops on the last zero of the run, before the end of the text |
| NumberSpec.AutoRadix | NiL.JS/Core/Tools.cs:421-444 | the auto-radix prefix moves the cursor forward within the text and leaves a valid radix |
| NumberSpec.AccumulateShifts | NiL.JS/Core/Tools.cs:456-460 | feeding digits one at a time as `t * 10 + d` gives `t * 10^n` plus their decimal value |
| NumberSpec.AccumulateValue | NiL.JS/Core/Tools.cs:456-460 | from 0 the accumulator holds the decimal value of the digits fed |
| NumberSpec.IntegerPart | NiL.JS/Core/Tools.cs:450-468 | the integer part stores at most 19 digits, counts the others in `deg`, and its accumulator stays below 10^scount, so never overflows a `ulong` |
| NumberSpec.FractionPart | NiL.JS/Core/Tools.cs:471-491 | the fraction keeps at most 19 stored digits in total, and `deg` falls by at most the number of fraction digits read |
| NumberSpec.Exponent | NiL.JS/Core/Tools.cs:494-513 | an exponent moves the cursor forward, keeps `deg` an `int`, and without an 'e' leaves both alone |
| NumberSpec.DecimalMantissa | NiL.JS/Core/Tools.cs:445-491 | the mantissa scan stays inside the text and its `deg` is bounded by the text length |
| NumberSpec.DecimalBranch | NiL.JS/Core/Tools.cs:445-563 | a failed decimal scan reports NaN and leaves `index`; a successful one moves `index` forward within the text; the exceptions of the exponent, the `decimal` overflow and the skipped-zeros test pass through |
| NumberSpec.IntegerBranch | NiL.JS/Core/Tools.cs:564-606 | the same for the integer branch |
| NumberSpec.SignAt | NiL.JS/Core/Tools.cs:406-408 | the sign is +1 or -1 and consumes at most one code unit |
| NumberSpec.ParseNumberSpec | NiL.JS/Core/Tools.cs:370-607 | a failed `ParseNumber` reports NaN and leaves `index`; a successful one moves `index` forward, never past the end |
| NumberSpec.SignedNumber | NiL.JS/Core/Tools.cs:406-606 | the same, for the scan after the sign |
| NumberProps.BadRadix | NiL.JS/Core/Tools.cs:378-380 | a radix other than 0 outside 2..36 fails with NaN and leaves `index`, whatever the text |
| NumberProps.ZerosValue | NiL.JS/Core/Tools.cs:456-460 | a run of '0' digits has the value 0 |
| NumberProps.NinesValue | NiL.JS/Core/Tools.cs:456-460 | n '9' digits have the value 10^n - 1 |
| NumberProps.PlainDigitsDecimal | NiL.JS/Core/Tools.cs:445-563 | a decimal of plain digits keeps the first 19 as its mantissa and counts the rest in the scale; it raises Overflow when the scale is 10 or more and mantissa times 10^10 exceeds `decimal.MaxValue`, raises SyntaxError for a zero mantissa after skipped zeros, and otherwise succeeds after the digits |
| NumberProps.TwentyNineNinesOverflow | NiL.JS/Core/Tools.cs:531-534 | 29 nines raise the `decimal` OverflowException |
| NumberProps.SkippedZerosRaiseAll | NiL.JS/Core/Tools.cs:421-559 | zeros skipped before a last '0', with only zeros in a fraction after it and no exponent, raise SyntaxError |
| NumberProps.ZeroDigitsValue | NiL.JS/Core/Tools.cs:456-491 | the stored digits of a zero and an all-zero fraction have the value 0 |
| NumberProps.ZeroZeroE400Mantissa | NiL.JS/Core/Tools.cs:421-470 | "00e400" skips one zero and stores the mantissa 0 |
| NumberProps.ZeroZeroE400Exponent | NiL.JS/Core/Tools.cs:494-513 | the exponent of "00e400" brings the scale to 400 and ends the text |
| NumberProps.ZeroMantissaHugeScale | NiL.JS/Core/Tools.cs:541-562 | "00e400" succeeds with mantissa 0 and scale 400 although zeros were skipped |
| NumberScan.SkipBlank | NiL.JS/Core/Tools.cs:386-388 | the loop stops at the first code unit that is not white space or is a line terminator |
| NumberScan.MatchWord | NiL.JS/Core/Tools.cs:394-405 | the early-exit loop returns exactly when the whole word ("NaN" or "Infinity") is at the cursor |
| NumberScan.PushDigit | NiL.JS/Core/Tools.cs:456-460 | one stored digit updates the `ulong` accumulator without overflow, as `Accumulate` says |
| NumberScan.RadixStep | NiL.JS/Core/Tools.cs:575-586 | one accepted digit multiplies the value by the radix and adds its digit value, and below the switch threshold the `ulong` cannot overflow |
| NumberScan.ScanIntegerPart | NiL.JS/Core/Tools.cs:450-468 | the loop computes `IntegerPart` |
| NumberScan.IntegerPartAt | NiL.JS/Core/Tools.cs:450-468 | the integer part is the first 19 digits of the digit run, with the rest counted in `deg` |
| NumberScan.ScanFraction | NiL.JS/Core/Tools.cs:471-491 | the loop computes `FractionPart` |
| NumberScan.FractionPartAt | NiL.JS/Core/Tools.cs:471-491 | the fraction stores digits up to 19 in total, one `deg` step each |
| NumberScan.ScanExponentDigits | NiL.JS/Core/Tools.cs:500-511 | the loop reads the whole digit run, and `td` is its decimal value wrapped to an `int` |
| NumberScan.PushRadixDigit | NiL.JS/Core/Tools.cs:577-594 | one accepted digit keeps the exact magnitude, and the switch to the double accumulator happens exactly at 2^57 |
| NumberScan.ScanRadixDigits | NiL.JS/Core/Tools.cs:573-596 | the loop reads the longest run of accepted digits; the magnitude is their value in the radix, and `extended` holds exactly when it reached 2^57 |
| NumberScan.RadixRunAt | NiL.JS/Core/Tools.cs:573-596 | the run of accepted digits ends where acceptance first fails |
| NumberScan.ScanAutoRadix | NiL.JS/Core/Tools.cs:421-444 | the code computes `AutoRadix`, errors included |
| NumberScan.ScanExponent | NiL.JS/Core/Tools.cs:494-513 | the code computes `Exponent`, errors included |
| NumberScan.ScanMantissa | NiL.JS/Core/Tools.cs:445-492 | the code computes `DecimalMantissa` |
| NumberScan.DecimalMantissaDot | NiL.JS/Core/Tools.cs:469-491 | with a '.', the mantissa is the fraction scanned after the integer part, and a digit was seen if the prefix, the integer part or the fraction saw one |
| NumberScan.DecimalMantissaNoDot | NiL.JS/Core/Tools.cs:469-471 | without a '.', the mantissa is the integer part, and a digit was seen if the prefix or the integer part saw one |
| NumberScan.ScanDecimal | NiL.JS/Core/Tools.cs:445-563 | the decimal branch computes `DecimalBranch` |
| NumberScan.ScanInteger | NiL.JS/Core/Tools.cs:564-606 | the integer branch computes `IntegerBranch` |
| NumberScan.ParseNumber | NiL.JS/Core/Tools.cs:370-607 | `ParseNumber(code, ref index, out value, radix, options)` computes `ParseNumberSpec`, errors included |
| NumberScan.ScanSigned | NiL.JS/Core/Tools.cs:406-606 | the code after the sign computes `SignedNumber` |
| NumberProps.DoubleZeroReadsPastEnd | NiL.JS/Core/Tools.cs:423-430 | "00" reads past the end of the text (IndexOutOfRange) |
| NumberProps.TrailingExponentReadsPastEnd | NiL.JS/Core/Tools.cs:494-498 | "1e" reads past the end of the text |
| NumberProps.LegacyOctalRaises | NiL.JS/Core/Tools.cs:435-438 | "07" with RaiseIfOctal raises SyntaxError |
| NumberProps.ZeroZeroPointZeroPrefix | NiL.JS/Core/Tools.cs:421-444 | "00.0" skips one zero and records the skip |
| NumberProps.ZeroZeroPointZeroMantissa | NiL.JS/Core/Tools.cs:445-491 | "00.0" gives mantissa 0 with two stored digits and `deg` -1 |
| NumberProps.SkippedZerosRaise | NiL.JS/Core/Tools.cs:558-559 | "00.0" raises SyntaxError, because its value is 0 after skipped zeros |
| NumberProps.BlankThenNaN | NiL.JS/Core/Tools.cs:386-405 | " NaN" succeeds with NaN and moves `index` past the word |
| NumberProps.LineTerminatorNotSkipped | NiL.JS/Core/Tools.cs:386-470 | "\n1" fails: a line terminator is not skipped as white space |
| NumberProps.SignedNumberShape | NiL.JS/Core/Tools.cs:406-420 | after the sign, a successful scan is Infinity exactly when the word "Infinity" follows, otherwise a decimal or integer number |
| NumberProps.BlankIsZero | NiL.JS/Core/Tools.cs:381-393 | the scan succeeds with 0 and leaves `index` exactly when the rest of the text is white space other than line terminators |
| NumberProps.NaNIsTheWord | NiL.JS/Core/Tools.cs:394-405 | a successful NaN comes exactly from "NaN" right after the white space, and `index` ends just past it |
| NumberProps.InfinityIsTheWord | NiL.JS/Core/Tools.cs:406-420 | a successful Infinity comes exactly from "Infinity" after the white space and an optional sign; it carries that sign and `index` ends past the word |
| NumberProps.ZeroRunEnds | NiL.JS/Core/Tools.cs:425-429 | the zero-skipping loop stops on the last zero of a run |
| NumberProps.HexPrefix | NiL.JS/Core/Tools.cs:425-434 | zeros followed by "0x" or "0X" select radix 16 after the 'x' |
| NumberProps.LegacyOctalPrefix | NiL.JS/Core/Tools.cs:435-443 | "0" then a digit raises under RaiseIfOctal, and otherwise selects radix 8 (or stays decimal without ProcessOctal), counting a digit as seen |
| NumberProps.ZerosAtEndReadPastEnd | NiL.JS/Core/Tools.cs:423-430 | a text ending in two or more zeros after the cursor reads past the end |
| NumberProps.NoPrefix | NiL.JS/Core/Tools.cs:421-444 | without auto-radix, or without a leading '0', the prefix changes nothing |
| NumberProps.IntegerBranchDigits | NiL.JS/Core/Tools.cs:564-606 | the integer branch reads the longest run of digits of the radix; its magnitude is their value, it is extended from 2^57 on, and it fails only without any digit |
| NumberProps.IntegerPartStores | NiL.JS/Core/Tools.cs:450-468 | over a digit run, the integer part stores Min(n, 19) digits and counts the rest in `deg` |
| NumberProps.FractionPartStores | NiL.JS/Core/Tools.cs:471-491 | over a digit run, the fraction stores digits until 19 are held, lowering `deg` once per stored digit |
| NumberProps.MantissaWithDot | NiL.JS/Core/Tools.cs:445-491 | with a '.', the stored digits are the first 19 of the integer digits followed by the fraction digits |
| NumberProps.MantissaDigitsWithDot | NiL.JS/Core/Tools.cs:445-491 | with a '.': the mantissa is the value of the first 19 digits of the integer and fraction digits taken together; `deg` is the number of integer digits less the number stored; a digit was seen exactly when there was one |
| NumberProps.MantissaDigitsWithoutDot | NiL.JS/Core/Tools.cs:445-470 | without a '.', the mantissa is the value of the first 19 integer digits, and `deg` counts the rest |
| NumberProps.ExponentAdds | NiL.JS/Core/Tools.cs:494-513 | when nothing overflows an `int`, the exponent adds its signed decimal value to `deg` and ends after its digits |
| Escapes.HexFieldOfDigits | NiL.JS/Core/Tools.cs:640-647 | a `\x`/`\u` field of hexadecimal digits is read as their value |
| Escapes.HexFieldRejects | NiL.JS/Core/Tools.cs:642-649 | a field with anything but white space, NUL or hexadecimal digits is rejected |
| Escapes.HexField | NiL.JS/Core/Tools.cs:640-649 | a field that parses holds at least one hexadecimal digit |
| Escapes.Escape | NiL.JS/Core/Tools.cs:633-703 | a decoded escape moves the cursor forward within the text and is non-empty and never longer than its source |
| Escapes.DigitEscape | NiL.JS/Core/Tools.cs:684-694 | a digit escape reads one to three digits, stopping early only at a non-digit or the end; its code unit is their base-ten value |
| Escapes.Decode | NiL.JS/Core/Tools.cs:622-708 | the only exception of the decoding is SyntaxError, and only a text with a backslash at or after the cursor raises it |
| Escapes.Unescaped | NiL.JS/Core/Tools.cs:617-710 | `Unescape` raises only SyntaxError, and only for a text with a backslash |
| Escapes.Unescape | NiL.JS/Core/Tools.cs:617-710 | the loop with its lazily created builder computes `Unescaped` |
| Escapes.DecodeAtEscape | NiL.JS/Core/Tools.cs:624-705 | at a backslash with a unit after it, an invalid escape ends the whole decoding with its error, and a valid one is appended to what was decoded before it |
| Escapes.DecodeAtPlain | NiL.JS/Core/Tools.cs:706-707 | any other unit is appended as it is to what was decoded before it |
| Escapes.PlainRun | NiL.JS/Core/Tools.cs:706-707 | text without a backslash is copied through unchanged |
| Escapes.NoEscapeUnchanged | NiL.JS/Core/Tools.cs:709 | a text without an escape is returned as it is |
| Escapes.DecodeShrinks | NiL.JS/Core/Tools.cs:622-708 | the decoded text is never longer than the encoded one |
| Escapes.UnescapedShrinks | NiL.JS/Core/Tools.cs:617-710 | `Unescape` never lengthens a text |
| Escapes.StrictRejectsDigitEscape | NiL.JS/Core/Tools.cs:684-687 | in strict mode, a digit escape raises SyntaxError |
| Escapes.ShortHexRaises | NiL.JS/Core/Tools.cs:635-639 | a `\x` with fewer than two or a `\u` with fewer than four code units after its letter raises SyntaxError, in every mode |
| Escapes.UnknownEscape | NiL.JS/Core/Tools.cs:695-702 | an escape with an unknown letter decodes to that letter when `processUnknown` holds, and to the backslash and the letter when it does not |
| Escapes.QuoteUnitDecodes | NiL.JS/Core/Tools.cs:652-681 | each letter escape and the doubled backslash decode to the code unit they stand for |
| Escapes.QuoteRoundTrip | NiL.JS/Core/Tools.cs:622-708 | decoding undoes quoting when unknown escapes drop their backslash |
| Escapes.UnescapeQuoted | NiL.JS/Core/Tools.cs:612-615 | `Unescape(Quote(s), strict)` gives back `s` |
| Escapes.UnicodeField | NiL.JS/Core/Tools.cs:636-647 | the four hexadecimal digits of `\uXXXX` are read back as the code unit |
| Escapes.UnicodeRoundTrip | NiL.JS/Core/Tools.cs:635-651 | text written entirely as `\u` escapes decodes to itself in every mode |
| Escapes.UnescapeUnicodeQuoted | NiL.JS/Core/Tools.cs:617-710 | `Unescape` of the `\u`-escaped text gives the text back |
| Comments.BlockCommentEnd | NiL.JS/Core/Tools.cs:742-751 | a block comment ends after a closer inside the text; a missing closer raises SyntaxError |
| Comments.Comments | NiL.JS/Core/Tools.cs:723-755 | the comment loop moves forward and stays within the text |
| Comments.SkipCommentSpec | NiL.JS/Core/Tools.cs:720-759 | `skipComment` moves the index forward and stays within the text |
| Comments.ScanLineComment | NiL.JS/Core/Tools.cs:735-736 | the loop stops at the first line terminator |
| Comments.ScanBlockComment | NiL.JS/Core/Tools.cs:744-749 | the loop computes `BlockCommentEnd`, error included |
| Comments.ScanWhiteSpace | NiL.JS/Core/Tools.cs:756-758 | the loop stops at the first code unit that is not white space |
| Comments.SkipComment | NiL.JS/Core/Tools.cs:720-759 | the do-while loop computes `SkipCommentSpec` |
| Comments.BlockCommentEndFirst | NiL.JS/Core/Tools.cs:745-748 | a block comment fails exactly when no closer follows, and otherwise ends at the first closer |
| Comments.CommentsStop | NiL.JS/Core/Tools.cs:723-755 | after the comment loop, no comment opener is at the cursor |
| Comments.CommentsErrors | NiL.JS/Core/Tools.cs:747-748 | the only error of the comment loop is SyntaxError |
| Comments.NoCommentNoMove | NiL.JS/Core/Tools.cs:728-755 | without an opener at the cursor, the comment loop stays put |
| Comments.SkipCommentStops | NiL.JS/Core/Tools.cs:756-758 | `skipComment` stops at a code unit that is not white space when asked to skip spaces, and otherwise at one that opens no comment |
| Comments.Spaces | NiL.JS/Core/Tools.cs:779-780 | blanking n code units produces n code units |
| Comments.Literal | NiL.JS/Core/Tools.cs:783-795 | what is copied after the comments is the text up to `LiteralEnd` |
| Comments.LiteralEnd | NiL.JS/Core/Tools.cs:783-795 | a copied literal is non-empty and lies inside the text |
| Comments.AppendSpaces | NiL.JS/Core/Tools.cs:779-780 | appending spaces yields the old contents followed by n spaces |
| Comments.StripRound | NiL.JS/Core/Tools.cs:764-796 | one round of the loop copies some white space, blanks the comments after it and copies a literal |
| Comments.BlankRound | NiL.JS/Core/Tools.cs:766-780 | the white-space copy and comment blanking produce exactly the white space plus one space per comment code unit |
| Comments.CopyRound | NiL.JS/Core/Tools.cs:781-795 | the literal copy appends exactly the literal |
| Comments.Round | NiL.JS/Core/Tools.cs:764-796 | one round appends exactly what `Strip` produces for it, or reports the comment error |
| Comments.Strip | NiL.JS/Core/Tools.cs:764-796 | a successful pass from `i` produces exactly as many code units as remain after `i` |
| Comments.RemoveCommentsSpec | NiL.JS/Core/Tools.cs:761-798 | a successful `RemoveComments` keeps the length of the text |
| Comments.SpacesAreSpaces | NiL.JS/Core/Tools.cs:779-780 | every blanked code unit is a space |
| Comments.StripShape | NiL.JS/Core/Tools.cs:761-798 | a successful `RemoveComments` keeps the length, and each code unit is either the original or a space |
| Comments.NoCommentsUnchanged | NiL.JS/Core/Tools.cs:797 | a text without comment openers comes back unchanged |
| Comments.StripErrors | NiL.JS/Core/Tools.cs:747-748 | the only error of `RemoveComments` is SyntaxError |
| Comments.RemoveComments | NiL.JS/Core/Tools.cs:761-798 | the loop with its lazily created builder computes `RemoveCommentsSpec` |
| TextPosition.PositionToTextcord | NiL.JS/Core/Tools.cs:827-854 | the loop computes `TextCordOf`, errors included |
| TextPosition.Walk | NiL.JS/Core/Tools.cs:835-852 | the walk raises only IndexOutOfRange, and from a valid line and column it ends on a line no smaller and a column of at least 1 |
| TextPosition.TextCordOf | NiL.JS/Core/Tools.cs:827-854 | a negative position raises ArgumentOutOfRange, every other error is IndexOutOfRange, and a result has line and column of at least 1 |
| TextPosition.LineStart | NiL.JS/Core/Tools.cs:835-852 | a line starts at 0 or after an LF or CR, and no line end lies between it and the position |
| TextPosition.TextCordErrors | NiL.JS/Core/Tools.cs:831-841 | a negative position raises ArgumentOutOfRange; a position past the end reads past the text |
| TextPosition.TextCordInside | NiL.JS/Core/Tools.cs:835-852 | every position inside the text has a line and column |
| TextPosition.ColumnFromLineStart | NiL.JS/Core/Tools.cs:833-852 | the column is 1 plus the number of code units since the last line end |
| TextPosition.LineCount | NiL.JS/Core/Tools.cs:833-852 | the line is 1 plus the number of line ends before the position, an LF CR or CR LF pair counting once |
| TextPosition.SingleLine | NiL.JS/Core/Tools.cs:835-852 | with no line end before the position, the result is line 1 and column position + 1 |
| TextPosition.EndingLineEndFails | NiL.JS/Core/Tools.cs:837-841 | as written, the position just past a final LF reads past the text |
| TextPosition.GuardedTotal | NiL.JS/Core/Tools.cs:835-852 | with the read after a line end guarded, exactly the positions 0 to the text length have a result, and it agrees wherever the code as written gives one |
| TextPosition.GuardedEndingLineEnd | NiL.JS/Core/Tools.cs:837-850 | guarded, the position past a final LF is line 2, column 1 |
| Coercion.Trim | NiL.JS/Core/Tools.cs:54 | `Trim` leaves no white space at either end |
| Coercion.TrimDropsWhiteSpace | NiL.JS/Core/Tools.cs:54 | `Trim` removes only white space, and only at the two ends |
| Coercion.TrimIsTheSlice | NiL.JS/Core/Tools.cs:54 | the trimmed text is the unique slice with white space outside it and none at its ends |
| Coercion.ValueOf | NiL.JS/Core/Tools.cs:514-602 | an integer below 2^53 that never switched to the double accumulator is exact; a zero mantissa is 0 unless its scale is 319 or more, where it is NaN; any other infinity comes from the rounding parameter |
| Coercion.Truncate | NiL.JS/Core/Tools.cs:144 | rounding toward zero: the result lies within 1 of its argument, on the side of 0 |
| Coercion.DoubleToInt | NiL.JS/Core/Tools.cs:153 | `(int)x` is the truncated value whenever that fits an `int`; any result other than `int.MinValue` is the truncation of a finite double |
| Coercion.DoubleToLong | NiL.JS/Core/Tools.cs:227 | the same for `(long)x` |
| Coercion.ParseTrimmed | NiL.JS/Core/Tools.cs:52-55 | a failed scan leaves the double NaN |
| Coercion.ToDouble | NiL.JS/Core/Tools.cs:35-76 | only strings, objects, an undefined variable and an unknown type can raise; a string raises exactly when its `ParseNumber` with AllowFloat and AllowAutoRadix does |
| Coercion.ObjectToDouble | NiL.JS/Core/Tools.cs:59-67 | an object with a null payload is 0 and cannot raise |
| Coercion.ToInt32 | NiL.JS/Core/Tools.cs:126-172 | the same error cases, a string raising exactly when its `ParseNumber` with the default options does |
| Coercion.ObjectToInt32 | NiL.JS/Core/Tools.cs:155-163 | an object with a null payload gives `nullOrUndef` and cannot raise |
| Coercion.ToInt64 | NiL.JS/Core/Tools.cs:209-254 | the same, except that an undefined variable cannot raise |
| Coercion.ObjectToInt64 | NiL.JS/Core/Tools.cs:238-246 | an object with a null payload gives `nullOrUndef`; otherwise the result is an `int` widened to `long` |
| Coercion.ToNumber | NiL.JS/Core/Tools.cs:259-295 | the same error cases as `ToInt32` |
| Coercion.ObjectToNumber | NiL.JS/Core/Tools.cs:278-286 | an object with a null payload is the `int` 0 and cannot raise |
| Coercion.TrimPadded | NiL.JS/Core/Tools.cs:150 | white space around a text does not change its trimmed form |
| Coercion.StringsIgnorePadding | NiL.JS/Core/Tools.cs:146-154 | all four conversions give the same result for a string with or without surrounding white space |
| Coercion.TrimmedAlikeDouble | NiL.JS/Core/Tools.cs:50-57 | two strings with the same trimmed text convert to the same double |
| Coercion.TrimmedAlikeInt32 | NiL.JS/Core/Tools.cs:146-154 | the same for `JSObjectToInt32` |
| Coercion.TrimmedAlikeInt64 | NiL.JS/Core/Tools.cs:229-237 | the same for `JSObjectToInt64` |
| Coercion.TrimmedAlikeNumber | NiL.JS/Core/Tools.cs:269-277 | the same for `JSObjectToNumber` |
| Coercion.ParsePadded | NiL.JS/Core/Tools.cs:54 | white space around a text does not change its parse |
| Coercion.NaNString | NiL.JS/Core/Tools.cs:50-57 | "NaN" is NaN as a double and a number, and Int32Min / Int64Min through the integer casts |
| Coercion.ZeroTimesHugeScaleIsNaN | NiL.JS/Core/Tools.cs:531-557 | "00e400" converts to NaN by `JSObjectToNumber`, because its zero mantissa is multiplied by an infinite power of ten |
| Coercion.Int32Default | NiL.JS/Core/Tools.cs:126-172 | `JSObjectToInt32` gives `nullOrUndef` for null, Undefined, a missing property and a null-payload object, and the result never depends on `nullOrUndef` otherwise |
| Coercion.Int64Default | NiL.JS/Core/Tools.cs:209-254 | the same for `JSObjectToInt64`, where an undefined variable also gives `nullOrUndef` |
| Coercion.UndefinedVariable | NiL.JS/Core/Tools.cs:247-250 | an undefined variable raises ReferenceError in the Int32, Double and Number conversions, but gives `nullOrUndef` in `JSObjectToInt64` |
| Coercion.Int32Infinity | NiL.JS/Core/Tools.cs:138-145 | `alternateInfinity` matters only for an infinite Double, giving `int.MaxValue`/`int.MinValue` instead of 0 |
| Coercion.Int64Infinity | NiL.JS/Core/Tools.cs:221-228 | the same for `long` |
| Coercion.FiniteDouble | NiL.JS/Core/Tools.cs:138-145 | a finite Double gives an `int` equal to the `long` modulo 2^32, each the truncated value when it fits |
| Coercion.Int64OfObject | NiL.JS/Core/Tools.cs:238-246 | `JSObjectToInt64` of an object converts its primitive value with `JSObjectToInt32(r)` and widens the result |
| Coercion.IntWidthsAgree | NiL.JS/Core/Tools.cs:209-254 | on Bool, Int, absent values and objects the Int32 and Int64 conversions agree |
| Coercion.NumberIsNumeric | NiL.JS/Core/Tools.cs:259-295 | `JSObjectToNumber` yields a Bool, Int or Double, and returns its argument exactly when it is one already |
| Coercion.DoubleAndNumber | NiL.JS/Core/Tools.cs:35-76 | Double and Number coercion agree on non-string, present values, while Undefined gives NaN and 0 |

## Left out

- The translation of a scanned mantissa and scale into an IEEE double is
  floating-point rounding (Tools.cs:514-557). So is an integer that overflows
  into the double accumulator, or that reaches 2^53 (Tools.cs:583-602). All
  of these are a rounding parameter of the coercions, and the scan yields the
  exact digits. The `decimal` OverflowException and the NaN of a zero
  mantissa times an infinite power of ten are modelled.
- NumberSpec.DecimalBranch: the test `value == 0 && skiped` (Tools.cs:558)
  is taken on the stored mantissa and the scale. A non-zero mantissa that
  underflows to 0.0 after skipped zeros is not modelled.
- `Float` has no negative zero.
- The C# casts `(int)d` and `(long)d` of NaN, an infinity or an out-of-range
  double are unspecified in C#. The model uses what the x86/x64 conversion
  instructions give: the type's minimum.
- `DoubleToString`, `convertJStoObj`, `RaiseIfNotExist` and `NumString` are
  not part of this model.
- `ToPrimitiveValue_Value_String` belongs to the object. It is a parameter,
  assumed to return a non-object primitive or an exception.
- `Parser.ValidateString` is not part of this model. It is a parameter that
  recognises a literal inside the text or declines.
- `ArgumentNullException` for a null text is not modelled, because sequences
  are never null. A null `JSObject` is `None`.
- The forwarding overloads of `ParseNumber`, `Unescape`,
  `JSObjectToInt32` and `JSObjectToInt64` only fix default arguments. The
  model has the full-argument forms.
- The `default` branch of the type switches is the `OtherType` tag. It stands
  for the enum values this core does not know, and gives `NotImplemented`.
- `char.IsWhiteSpace` is the fixed .NET table of white-space code units.
- NumberSpec.ParseNumberSpec: requires `index <= |code|`. With a larger index
  the source returns 0 for the empty text and otherwise reads past the end.
- NumberSpec.ParseNumberSpec: requires `|code| < 2^31`, the .NET string
  limit that keeps the `int` cursor and `deg` from wrapping.
- Comments.StripShape: says that each code unit is kept or becomes a space.
  It does not identify which ones are comment code units. That is what
  `Comments.Round` and `Comments.SpacesAreSpaces` state one round at a time.
- Concurrency and the engine's exception objects (`JSException` with a
  `SyntaxError` or `ReferenceError` value) become the plain error tags of
  `Result`.

## Findings

| source | as written | input that shows it | evidently intended | confidence | as-written member | corrected member |
|---|---|---|---|---|---|---|
| NiL.JS/Core/Tools.cs:859-867 | `isHex` tests `anum(p) < 16` for '0' <= p <= 'f', and `anum` maps ':' to '?' to 10-15 | ':' | only 0-9, A-F and a-f are hexadecimal digits | not executed | Chars.IsHexAcceptsPunctuation | Chars.IsHexDigitIff |
| NiL.JS/Core/Tools.cs:837-849 | after a line end the loop reads `text[i + 1]` even when the line end is the last code unit | text "a\n", position 2 | the position just past a final line end is the start of the next line | not executed | TextPosition.EndingLineEndFails | TextPosition.GuardedTotal |
