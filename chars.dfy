/** The character classes and the digit alphabet of Core/Tools.cs:
    `isDigit`, `isLineTerminator`, `isHex`, `anum`, the `NumChars` table, and
    the .NET `char.IsWhiteSpace` table the scanners rely on. */
module Chars {
  import opened Base

  // Code units the scanners compare against.
  const Tab: CodeUnit := 9
  const LF: CodeUnit := 10
  const VT: CodeUnit := 11
  const FF: CodeUnit := 12
  const CR: CodeUnit := 13
  const Backspace: CodeUnit := 8
  const Space: CodeUnit := 32
  const Plus: CodeUnit := 43
  const Minus: CodeUnit := 45
  const Dot: CodeUnit := 46
  const Slash: CodeUnit := 47
  const Star: CodeUnit := 42
  const Digit0: CodeUnit := 48
  const Backslash: CodeUnit := 92
  const LineSeparator: CodeUnit := 0x2028
  const ParagraphSeparator: CodeUnit := 0x2029

  /** `isDigit`: an ASCII decimal digit. */
  predicate IsDigit(c: CodeUnit) {
    48 <= c <= 57
  }

  /** `isLineTerminator`: LF, CR, U+2028 and U+2029. */
  predicate IsLineTerminator(c: CodeUnit) {
    c == LF || c == CR || c == LineSeparator || c == ParagraphSeparator
  }

  /** .NET's `char.IsWhiteSpace`: the space separators (U+0020, U+00A0,
      U+1680, U+2000-U+200A, U+202F, U+205F, U+3000), the line and
      paragraph separators, U+0009-U+000D and U+0085. */
  predicate IsWhiteSpace(c: CodeUnit) {
    (9 <= c <= 13) || c == 0x20 || c == 0x85 || c == 0xA0 || c == 0x1680
    || (0x2000 <= c <= 0x200A) || c == LineSeparator || c == ParagraphSeparator
    || c == 0x202F || c == 0x205F || c == 0x3000
  }

  /** Every line terminator is white space, which is why the number scanner
      has to exclude terminators from its white-space skip explicitly. */
  lemma LineTerminatorIsWhiteSpace(c: CodeUnit)
    requires IsLineTerminator(c)
    ensures IsWhiteSpace(c)
  {
  }

  /** `NumChars`: the digit alphabet 0-9, A-Z. */
  const NumChars: seq<CodeUnit> :=
    [48, 49, 50, 51, 52, 53, 54, 55, 56, 57,
     65, 66, 67, 68, 69, 70, 71, 72, 73, 74, 75, 76, 77,
     78, 79, 80, 81, 82, 83, 84, 85, 86, 87, 88, 89, 90]

  lemma NumCharsAt(k: nat)
    requires k < 36
    ensures |NumChars| == 36
    ensures NumChars[k] as int == if k < 10 then 48 + k else 55 + k
  {
  }

  /** `anum`: the arithmetic digit value, `p % 'a' % 'A' + 10` reduced
      modulo `'0' + 10`. Whatever the code unit, the value indexes a 58-entry
      range, and only for letters and digits is it meaningful. */
  function Anum(p: CodeUnit): (r: int)
    ensures 0 <= r < 58
  {
    (p as int % 97 % 65 + 10) % 58
  }

  /** The intended reading of a digit character: a case-insensitive
      letter or decimal digit. */
  predicate IsAlnum(c: CodeUnit) {
    IsDigit(c) || (65 <= c <= 90) || (97 <= c <= 122)
  }

  /** Reference value of a letter or digit: 0-9, then A/a = 10 … Z/z = 35. */
  function DigitValue(c: CodeUnit): (r: nat)
    requires IsAlnum(c)
    ensures r < 36
  {
    if IsDigit(c) then c as int - 48
    else if c <= 90 then c as int - 55
    else c as int - 87
  }

  /** `anum` agrees with the reference value on letters and digits. */
  lemma AnumOfAlnum(c: CodeUnit)
    requires IsAlnum(c)
    ensures Anum(c) == DigitValue(c)
  {
    if IsDigit(c) {
      assert c as int % 97 == c as int && c as int % 65 == c as int;
    } else if c <= 90 {
      assert c as int % 97 == c as int && c as int % 65 == c as int - 65;
    } else {
      assert c as int % 97 == c as int - 97;
    }
  }

  /** The acceptance test of the integer scanner (Tools.cs:575-576): the
      digit value is below the radix and `NumChars` holds the character in
      upper or lower case. `NumChars` is indexed only after `s < radix`. */
  predicate AcceptsDigit(c: CodeUnit, radix: int)
    requires 2 <= radix <= 36
  {
    var s := Anum(c);
    !(s >= radix || (NumChars[s] != c && NumChars[s] as int + 32 != c as int))
  }

  /** The acceptance test is exactly "a case-insensitive 0-9A-Z digit of
      value below the radix". */
  lemma AcceptsDigitIff(c: CodeUnit, radix: int)
    requires 2 <= radix <= 36
    ensures AcceptsDigit(c, radix) <==> IsAlnum(c) && DigitValue(c) < radix
  {
    var s := Anum(c);
    if s < radix {
      NumCharsAt(s);
      if IsAlnum(c) {
        AnumOfAlnum(c);
      }
    } else if IsAlnum(c) {
      AnumOfAlnum(c);
    }
  }

  /** The digit value of an accepted character. */
  lemma AcceptedValue(c: CodeUnit, radix: int)
    requires 2 <= radix <= 36
    requires AcceptsDigit(c, radix)
    ensures IsAlnum(c) && Anum(c) == DigitValue(c) < radix
  {
    AcceptsDigitIff(c, radix);
    AnumOfAlnum(c);
  }

  /** `isHex` as written (Tools.cs:859-867): a code unit between '0' and 'f'
      whose `anum` is below 16. */
  predicate IsHex(p: CodeUnit)
    ensures IsHex(p) <==> (48 <= p <= 63) || (65 <= p <= 70) || (97 <= p <= 102)
  {
    if p < 48 then false
    else if p > 102 then false
    else
      var c := Anum(p);
      c >= 0 && c < 16
  }

  /** `isHex` also accepts ':' ';' '<' '=' '>' '?', because `anum` maps
      those six code units to 10-15. */
  lemma IsHexAcceptsPunctuation(p: CodeUnit)
    requires 58 <= p <= 63
    ensures IsHex(p) && !IsAlnum(p)
  {
    var x := p as int;
    assert x % 97 == x && x % 65 == x;
    assert (x + 10) % 58 == x - 48;
    assert Anum(p) == x - 48;
  }

  /** The evidently intended hexadecimal digit: 0-9, A-F, a-f. */
  predicate IsHexDigit(c: CodeUnit) {
    IsDigit(c) || (65 <= c <= 70) || (97 <= c <= 102)
  }

  /** The corrected test accepts exactly the letters and digits whose value
      is below 16, and each of them is accepted by `isHex` too. */
  lemma IsHexDigitIff(c: CodeUnit)
    ensures IsHexDigit(c) <==> IsAlnum(c) && DigitValue(c) < 16
    ensures IsHexDigit(c) ==> IsHex(c)
  {
    if IsAlnum(c) {
      AnumOfAlnum(c);
    }
  }

  /** Every code unit of `s` is a digit of the given radix. */
  predicate AllDigits(s: seq<CodeUnit>, radix: nat) {
    forall k | 0 <= k < |s| :: IsAlnum(s[k]) && DigitValue(s[k]) < radix
  }

  /** The value of a digit string in the given radix, most significant
      digit first. */
  function Value(s: seq<CodeUnit>, radix: nat): nat
    requires 2 <= radix <= 36
    requires AllDigits(s, radix)
  {
    if s == [] then 0
    else
      assert AllDigits(s[..|s| - 1], radix);
      var v := Value(s[..|s| - 1], radix);
      MulNat(v, radix);
      v * radix + DigitValue(s[|s| - 1])
  }

  lemma MulNat(a: nat, b: nat)
    ensures a * b >= 0
  {
  }

  /** An n-digit string has a value below radix^n: it fits in n digits. */
  lemma {:induction false} ValueBound(s: seq<CodeUnit>, radix: nat)
    requires 2 <= radix <= 36
    requires AllDigits(s, radix)
    ensures Value(s, radix) < Pow(radix, |s|)
  {
    if s != [] {
      var init := s[..|s| - 1];
      assert AllDigits(init, radix);
      ValueBound(init, radix);
      var v, d, p := Value(init, radix), DigitValue(s[|s| - 1]), Pow(radix, |init|);
      ShiftBound(v, d, radix, p);
      assert Value(s, radix) == v * radix + d;
      assert Pow(radix, |s|) == radix * p;
    }
  }

  /** Appending a digit shifts the value one place. */
  lemma ValueSnoc(s: seq<CodeUnit>, c: CodeUnit, radix: nat)
    requires 2 <= radix <= 36
    requires AllDigits(s, radix) && IsAlnum(c) && DigitValue(c) < radix
    ensures AllDigits(s + [c], radix)
    ensures Value(s + [c], radix) == Value(s, radix) * radix + DigitValue(c)
  {
    assert (s + [c])[..|s|] == s;
  }

  lemma Distribute(a: int, p: int, v: int, r: int, d: int)
    ensures (a * p + v) * r + d == a * (p * r) + (v * r + d)
  {
  }

  /** Every code unit of `s` is a decimal digit. */
  predicate DecimalRun(s: seq<CodeUnit>) {
    forall k | 0 <= k < |s| :: IsDigit(s[k])
  }

  /** Decimal digits are radix-10 digits with their usual value. */
  lemma DecimalDigits(s: seq<CodeUnit>)
    requires DecimalRun(s)
    ensures AllDigits(s, 10)
  {
  }

  /** A number below `p`, shifted one place and given a new last digit,
      stays below `p * radix`. */
  lemma ShiftBound(v: nat, d: nat, radix: nat, p: nat)
    requires v < p && d < radix
    ensures v * radix + d < p * radix
  {
    var gap: nat := p - (v + 1);
    calc {
      v * radix + d;
    <
      v * radix + radix;
    ==
      (v + 1) * radix;
    <=
      (v + 1) * radix + gap * radix;
    ==
      p * radix;
    }
  }

  function Pow(b: nat, n: nat): (r: nat)
    ensures b >= 1 ==> r >= 1
  {
    if n == 0 then 1 else MulNat(b, Pow(b, n - 1)); b * Pow(b, n - 1)
  }

  lemma {:induction false} PowAdd(b: nat, m: nat, n: nat)
    ensures Pow(b, m + n) == Pow(b, m) * Pow(b, n)
  {
    if n > 0 {
      PowAdd(b, m, n - 1);
      var x, y := Pow(b, m), Pow(b, n - 1);
      assert Pow(b, m + n) == b * Pow(b, m + n - 1) == b * (x * y);
      MulRearrange(b, x, y);
      assert Pow(b, n) == b * y;
    }
  }

  lemma MulRearrange(x: int, y: int, z: int)
    ensures x * (y * z) == y * (x * z)
  {
  }

  lemma {:induction false} PowMonotone(b: nat, m: nat, n: nat)
    requires b >= 1 && m <= n
    ensures Pow(b, m) <= Pow(b, n)
  {
    if m < n {
      PowMonotone(b, m, n - 1);
    }
  }

  /** Nineteen decimal digits always fit in a `ulong`. */
  lemma Pow10Bound(n: nat)
    requires n <= 19
    ensures Pow(10, n) <= 10_000_000_000_000_000_000 < 0x1_0000_0000_0000_0000
  {
    assert Pow(10, 1) == 10 && Pow(10, 2) == 100 && Pow(10, 3) == 1000;
    assert Pow(10, 4) == 10_000 && Pow(10, 5) == 100_000 && Pow(10, 6) == 1_000_000;
    assert Pow(10, 7) == 10_000_000 && Pow(10, 8) == 100_000_000;
    assert Pow(10, 9) == 1_000_000_000 && Pow(10, 10) == 10_000_000_000;
    assert Pow(10, 11) == 100_000_000_000 && Pow(10, 12) == 1_000_000_000_000;
    assert Pow(10, 13) == 10_000_000_000_000 && Pow(10, 14) == 100_000_000_000_000;
    assert Pow(10, 15) == 1_000_000_000_000_000 && Pow(10, 16) == 10_000_000_000_000_000;
    assert Pow(10, 17) == 100_000_000_000_000_000 && Pow(10, 18) == 1_000_000_000_000_000_000;
    assert Pow(10, 19) == 10_000_000_000_000_000_000;
    PowMonotone(10, n, 19);
  }

  /** The end of the longest run of code units from `i` that `accept`
      admits: the cursor a `while (i < code.Length && accept(code[i])) i++`
      loop stops at. */
  function RunEnd(code: seq<CodeUnit>, i: nat, accept: CodeUnit -> bool): (r: nat)
    requires i <= |code|
    ensures i <= r <= |code|
    ensures forall k | i <= k < r :: accept(code[k])
    ensures r == |code| || !accept(code[r])
    decreases |code| - i
  {
    if i < |code| && accept(code[i]) then RunEnd(code, i + 1, accept) else i
  }

  /** The run end is the only position with those two properties, so a
      loop that establishes them has computed it. */
  lemma {:induction false} RunEndUnique(code: seq<CodeUnit>, i: nat, j: nat, accept: CodeUnit -> bool)
    requires i <= j <= |code|
    requires forall k | i <= k < j :: accept(code[k])
    requires j == |code| || !accept(code[j])
    ensures RunEnd(code, i, accept) == j
    decreases j - i
  {
    if i < j {
      RunEndUnique(code, i + 1, j, accept);
    }
  }
}
