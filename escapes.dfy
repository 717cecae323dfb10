/** `Tools.Unescape` (Core/Tools.cs:612-710): the decoding of JavaScript
    string escapes. The decoding is stated as a function over the text,
    and the source's loop, with its lazily created builder, is a method
    proved to compute it. */
module Escapes {
  import opened Base
  import opened Chars

  //-------------------------------------------------------------------------
  // The hexadecimal field of \x and \u
  //-------------------------------------------------------------------------

  /** The white space .NET's number parser allows around a number:
      U+0009-U+000D and the space. */
  predicate IsNumberWhite(c: CodeUnit) {
    c == Space || 9 <= c <= 13
  }

  predicate IsNul(c: CodeUnit) {
    c == 0
  }

  /** `ushort.TryParse(field, NumberStyles.HexNumber, …)` on the two or four
      code units after `\x` or `\u`: leading white space, one or more
      hexadecimal digits, trailing white space and, as .NET tolerates,
      trailing NUL code units. At most four digits always fit. */
  function HexField(s: seq<CodeUnit>): (r: Option<CodeUnit>)
    requires |s| <= 4
    ensures r.Some? ==> exists k | 0 <= k < |s| :: IsHexDigit(s[k])
  {
    var a := RunEnd(s, 0, IsNumberWhite);
    var b := RunEnd(s, a, IsHexDigit);
    var c := RunEnd(s, b, IsNumberWhite);
    if a < b && RunEnd(s, c, IsNul) == |s| then
      var digits := s[a..b];
      forall k | 0 <= k < |digits| ensures IsAlnum(digits[k]) && DigitValue(digits[k]) < 16 {
        IsHexDigitIff(digits[k]);
      }
      ValueBound(digits, 16);
      PowMonotone(16, |digits|, 4);
      Some(Value(digits, 16) as CodeUnit)
    else None
  }

  /** A field made only of hexadecimal digits is read as their value. */
  lemma HexFieldOfDigits(s: seq<CodeUnit>)
    requires 0 < |s| <= 4 && forall k | 0 <= k < |s| :: IsHexDigit(s[k])
    ensures AllDigits(s, 16) && Value(s, 16) < 0x1_0000
    ensures HexField(s) == Some(Value(s, 16) as CodeUnit)
  {
    forall k | 0 <= k < |s| ensures IsAlnum(s[k]) && DigitValue(s[k]) < 16 {
      IsHexDigitIff(s[k]);
    }
    ValueBound(s, 16);
    PowMonotone(16, |s|, 4);
    assert !IsNumberWhite(s[0]);
    RunEndUnique(s, 0, 0, IsNumberWhite);
    RunEndUnique(s, 0, |s|, IsHexDigit);
    assert s[0..|s|] == s;
  }

  /** A field holding anything other than white space, NUL or a
      hexadecimal digit is rejected. */
  lemma HexFieldRejects(s: seq<CodeUnit>, k: nat)
    requires |s| <= 4 && k < |s|
    requires !IsNumberWhite(s[k]) && !IsNul(s[k]) && !IsHexDigit(s[k])
    ensures HexField(s) == None
  {
    var a := RunEnd(s, 0, IsNumberWhite);
    var b := RunEnd(s, a, IsHexDigit);
    var c := RunEnd(s, b, IsNumberWhite);
    assert k >= a;
    assert k >= b;
    assert k >= c;
  }

  //-------------------------------------------------------------------------
  // One escape
  //-------------------------------------------------------------------------

  /** What an escape contributes, and where the text resumes after it. */
  datatype Step = Step(out: seq<CodeUnit>, next: nat)

  /** The escape whose letter is at `k` (the backslash is at `k - 1`). */
  function Escape(code: seq<CodeUnit>, k: nat, strict: bool, processUnknown: bool): (r: Result<Step>)
    requires 0 < k < |code|
    ensures r.Ok? ==> k < r.value.next <= |code| && 0 < |r.value.out| <= r.value.next - k + 1
  {
    var c := code[k];
    if c == 120 || c == 117 then                       // 'x', 'u'
      var n := if c == 117 then 4 else 2;
      if k + n + 1 > |code| then Err(SyntaxError)
      else
        match HexField(code[k + 1..k + 1 + n])
        case None => Err(SyntaxError)
        case Some(u) => Ok(Step([u], k + 1 + n))
    else if c == 116 then Ok(Step([Tab], k + 1))       // 't'
    else if c == 102 then Ok(Step([FF], k + 1))        // 'f'
    else if c == 118 then Ok(Step([VT], k + 1))        // 'v'
    else if c == 98 then Ok(Step([Backspace], k + 1))  // 'b'
    else if c == 110 then Ok(Step([LF], k + 1))        // 'n'
    else if c == 114 then Ok(Step([CR], k + 1))        // 'r'
    else if IsDigit(c) then
      if strict then Err(SyntaxError)
      else DigitEscape(code, k)
    else if processUnknown then Ok(Step([c], k + 1))
    else Ok(Step([Backslash, c], k + 1))
  }

  /** A digit escape outside strict mode: up to three decimal digits,
      combined in base ten, give one code unit. */
  function DigitEscape(code: seq<CodeUnit>, k: nat): (r: Result<Step>)
    requires k < |code| && IsDigit(code[k])
    ensures r.Ok? && k < r.value.next <= k + 3 && r.value.next <= |code| && |r.value.out| == 1
    ensures DecimalRun(code[k..r.value.next])
    ensures r.value.out[0] as int == Value(code[k..r.value.next], 10)
    ensures r.value.next == |code| || r.value.next == k + 3 || !IsDigit(code[r.value.next])
  {
    var d0 := code[k] as int - 48;
    if k + 1 < |code| && IsDigit(code[k + 1]) then
      var d1 := d0 * 10 + (code[k + 1] as int - 48);
      if k + 2 < |code| && IsDigit(code[k + 2]) then
        var d2 := d1 * 10 + (code[k + 2] as int - 48);
        DigitsValue3(code[k..k + 3]);
        Ok(Step([d2 as CodeUnit], k + 3))
      else
        DigitsValue2(code[k..k + 2]);
        Ok(Step([d1 as CodeUnit], k + 2))
    else
      DigitsValue1(code[k..k + 1]);
      Ok(Step([d0 as CodeUnit], k + 1))
  }

  lemma DigitsValue1(s: seq<CodeUnit>)
    requires |s| == 1 && IsDigit(s[0])
    ensures DecimalRun(s) && AllDigits(s, 10) && Value(s, 10) == s[0] as int - 48
  {
    assert s[..0] == [];
  }

  lemma DigitsValue2(s: seq<CodeUnit>)
    requires |s| == 2 && IsDigit(s[0]) && IsDigit(s[1])
    ensures DecimalRun(s) && AllDigits(s, 10)
    ensures Value(s, 10) == (s[0] as int - 48) * 10 + (s[1] as int - 48)
  {
    DigitsValue1(s[..1]);
  }

  lemma DigitsValue3(s: seq<CodeUnit>)
    requires |s| == 3 && IsDigit(s[0]) && IsDigit(s[1]) && IsDigit(s[2])
    ensures DecimalRun(s) && AllDigits(s, 10)
    ensures Value(s, 10) == ((s[0] as int - 48) * 10 + (s[1] as int - 48)) * 10 + (s[2] as int - 48)
  {
    DigitsValue2(s[..2]);
    assert s[..2][..1] == s[..1];
  }

  //-------------------------------------------------------------------------
  // The whole text
  //-------------------------------------------------------------------------

  /** Some escape character occurs in `code` from `i` on. */
  predicate BackslashFrom(code: seq<CodeUnit>, i: nat) {
    exists k | i <= k < |code| :: code[k] == Backslash
  }

  /** The text from `i` on, decoded. A final lone backslash stays as it is. */
  function Decode(code: seq<CodeUnit>, i: nat, strict: bool, processUnknown: bool): (r: Result<seq<CodeUnit>>)
    requires i <= |code|
    ensures r.Err? ==> r.error == SyntaxError && BackslashFrom(code, i)
    decreases |code| - i
  {
    if i == |code| then Ok([])
    else if code[i] == Backslash && i + 1 < |code| then
      match Escape(code, i + 1, strict, processUnknown)
      case Err(e) => Err(e)
      case Ok(step) => Prepend(step.out, Decode(code, step.next, strict, processUnknown))
    else Prepend([code[i]], Decode(code, i + 1, strict, processUnknown))
  }

  /** `Unescape(code, strict, processUnknown)`; the two-argument overload
      passes `processUnknown = true`. */
  function Unescaped(code: seq<CodeUnit>, strict: bool, processUnknown: bool): (r: Result<seq<CodeUnit>>)
    ensures r.Err? ==> r.error == SyntaxError && BackslashFrom(code, 0)
  {
    Decode(code, 0, strict, processUnknown)
  }

  /** The loop of Tools.cs:621-704. The builder is created at the first
      escape, with the text before it copied in; without an escape the
      input itself is returned. */
  method Unescape(code: seq<CodeUnit>, strict: bool, processUnknown: bool) returns (r: Result<seq<CodeUnit>>)
    ensures r == Unescaped(code, strict, processUnknown)
  {
    var res: seq<CodeUnit> := [];
    var built := false;
    var i := 0;
    ghost var out: seq<CodeUnit> := [];   // the text produced so far
    PrependNothing(Decode(code, 0, strict, processUnknown));
    while i < |code|
      invariant i <= |code|
      invariant if built then res == out else out == code[..i]
      invariant Decode(code, 0, strict, processUnknown) == Prepend(out, Decode(code, i, strict, processUnknown))
      decreases |code| - i
    {
      if code[i] == Backslash && i + 1 < |code| {
        if !built {
          res := AppendRange([], code, 0, i);
          assert [] + code[0..i] == code[..i];
          built := true;
        }
        var esc := Escape(code, i + 1, strict, processUnknown);
        DecodeAtEscape(code, 0, i, out, strict, processUnknown);
        if esc.Err? {
          return Err(esc.error);
        }
        res := res + esc.value.out;
        out := out + esc.value.out;
        i := esc.value.next;
      } else {
        DecodeAtPlain(code, 0, i, out, strict, processUnknown);
        SliceSnoc(code, 0, i);
        if built {
          res := res + [code[i]];
        }
        out := out + [code[i]];
        i := i + 1;
      }
    }
    AppendNothing(code);
    AppendNothing(out);
    r := Ok(if built then res else code);
  }

  /** One step of `Decode` at an escape, seen from `from` with `out`
      already produced: an error stops the scan, a decoded escape is added
      to the output. */
  lemma DecodeAtEscape(code: seq<CodeUnit>, from: nat, i: nat, out: seq<CodeUnit>, strict: bool, processUnknown: bool)
    requires from <= i && i + 1 < |code| && code[i] == Backslash
    requires Decode(code, from, strict, processUnknown) == Prepend(out, Decode(code, i, strict, processUnknown))
    ensures Escape(code, i + 1, strict, processUnknown).Err? ==>
      Decode(code, from, strict, processUnknown) == Err(Escape(code, i + 1, strict, processUnknown).error)
    ensures Escape(code, i + 1, strict, processUnknown).Ok? ==>
      var step := Escape(code, i + 1, strict, processUnknown).value;
      step.next <= |code| &&
      Decode(code, from, strict, processUnknown) == Prepend(out + step.out, Decode(code, step.next, strict, processUnknown))
  {
    var esc := Escape(code, i + 1, strict, processUnknown);
    if esc.Ok? {
      PrependPrepend(out, esc.value.out, Decode(code, esc.value.next, strict, processUnknown));
    }
  }

  /** One step of `Decode` at a unit that does not start an escape. */
  lemma DecodeAtPlain(code: seq<CodeUnit>, from: nat, i: nat, out: seq<CodeUnit>, strict: bool, processUnknown: bool)
    requires from <= i < |code| && !(code[i] == Backslash && i + 1 < |code|)
    requires Decode(code, from, strict, processUnknown) == Prepend(out, Decode(code, i, strict, processUnknown))
    ensures Decode(code, from, strict, processUnknown) == Prepend(out + [code[i]], Decode(code, i + 1, strict, processUnknown))
  {
    PrependPrepend(out, [code[i]], Decode(code, i + 1, strict, processUnknown));
  }

  //-------------------------------------------------------------------------
  // Properties
  //-------------------------------------------------------------------------

  /** Text without a backslash is copied through unchanged. */
  lemma {:induction false} PlainRun(code: seq<CodeUnit>, k: nat, i: nat, strict: bool, processUnknown: bool)
    requires k <= i <= |code| && forall j | k <= j < i :: code[j] != Backslash
    ensures Decode(code, k, strict, processUnknown) == Prepend(code[k..i], Decode(code, i, strict, processUnknown))
    decreases i - k
  {
    if k == i {
      assert code[k..i] == [];
      PrependNothing(Decode(code, i, strict, processUnknown));
    } else {
      PlainRun(code, k + 1, i, strict, processUnknown);
      PrependPrepend([code[k]], code[k + 1..i], Decode(code, i, strict, processUnknown));
      assert [code[k]] + code[k + 1..i] == code[k..i];
    }
  }

  /** Without an escape (a backslash that something follows), the result
      is the input itself. */
  lemma NoEscapeUnchanged(code: seq<CodeUnit>, strict: bool, processUnknown: bool)
    requires forall j | 0 <= j < |code| - 1 :: code[j] != Backslash
    ensures Unescaped(code, strict, processUnknown) == Ok(code)
  {
    if |code| > 0 {
      var last := |code| - 1;
      PlainRun(code, 0, last, strict, processUnknown);
      assert Decode(code, last + 1, strict, processUnknown) == Ok([]);
      assert [code[last]] + [] == [code[last]];
      assert code[0..last] + [code[last]] == code;
    }
  }

  /** Each escape is at least as long as what it decodes to, so the
      decoded text is never longer than the input. */
  lemma {:induction false} DecodeShrinks(code: seq<CodeUnit>, i: nat, strict: bool, processUnknown: bool)
    requires i <= |code|
    ensures var r := Decode(code, i, strict, processUnknown);
      r.Ok? ==> |r.value| <= |code| - i
    decreases |code| - i
  {
    if i < |code| {
      if code[i] == Backslash && i + 1 < |code| {
        var e := Escape(code, i + 1, strict, processUnknown);
        if e.Ok? {
          DecodeShrinks(code, e.value.next, strict, processUnknown);
        }
      } else {
        DecodeShrinks(code, i + 1, strict, processUnknown);
      }
    }
  }

  lemma UnescapedShrinks(code: seq<CodeUnit>, strict: bool, processUnknown: bool)
    ensures var r := Unescaped(code, strict, processUnknown);
      r.Ok? ==> |r.value| <= |code|
  {
    DecodeShrinks(code, 0, strict, processUnknown);
  }

  /** In strict mode, a digit escape raises a SyntaxError: here the first
      escape of the text. */
  lemma StrictRejectsDigitEscape(code: seq<CodeUnit>, i: nat, processUnknown: bool)
    requires i + 1 < |code| && code[i] == Backslash && IsDigit(code[i + 1])
    requires forall j | 0 <= j < i :: code[j] != Backslash
    ensures Unescaped(code, true, processUnknown) == Err(SyntaxError)
  {
    PlainRun(code, 0, i, true, processUnknown);
  }

  /** A `\x` with fewer than two, or a `\u` with fewer than four, code
      units after its letter raises SyntaxError, in every mode. */
  lemma ShortHexRaises(code: seq<CodeUnit>, i: nat, strict: bool, processUnknown: bool)
    requires i + 1 < |code| && code[i] == Backslash
    requires (code[i + 1] == 120 && i + 4 > |code|) || (code[i + 1] == 117 && i + 6 > |code|)
    requires forall j | 0 <= j < i :: code[j] != Backslash
    ensures Unescaped(code, strict, processUnknown) == Err(SyntaxError)
  {
    PlainRun(code, 0, i, strict, processUnknown);
  }

  /** A letter that starts no known escape: with `processUnknown` the
      backslash is dropped, and without it both code units are kept. */
  lemma UnknownEscape(code: seq<CodeUnit>, i: nat, strict: bool)
    requires i + 1 < |code| && code[i] == Backslash
    requires var c := code[i + 1];
      c != 120 && c != 117 && c != 116 && c != 102 && c != 118 && c != 98 && c != 110 && c != 114 && !IsDigit(c)
    ensures Decode(code, i, strict, false) == Prepend([Backslash, code[i + 1]], Decode(code, i + 2, strict, false))
    ensures Decode(code, i, strict, true) == Prepend([code[i + 1]], Decode(code, i + 2, strict, true))
  {
  }

  //-------------------------------------------------------------------------
  // Round trips
  //-------------------------------------------------------------------------

  /** The escape a JavaScript printer writes for one code unit: the six
      control characters with a letter escape, the backslash doubled, and
      everything else as it is. */
  function QuoteUnit(c: CodeUnit): seq<CodeUnit> {
    if c == Tab then [Backslash, 116]
    else if c == FF then [Backslash, 102]
    else if c == VT then [Backslash, 118]
    else if c == Backspace then [Backslash, 98]
    else if c == LF then [Backslash, 110]
    else if c == CR then [Backslash, 114]
    else if c == Backslash then [Backslash, Backslash]
    else [c]
  }

  function Quote(s: seq<CodeUnit>): seq<CodeUnit> {
    if s == [] then [] else QuoteUnit(s[0]) + Quote(s[1..])
  }

  /** `s` quoted unit by unit fills `code` from `i` to the end. */
  predicate QuotedAt(code: seq<CodeUnit>, i: nat, s: seq<CodeUnit>)
    decreases s
  {
    if s == [] then i == |code|
    else
      var q := QuoteUnit(s[0]);
      i + |q| <= |code| && code[i..i + |q|] == q && QuotedAt(code, i + |q|, s[1..])
  }

  lemma {:induction false} QuoteIsQuotedAt(p: seq<CodeUnit>, s: seq<CodeUnit>)
    ensures QuotedAt(p + Quote(s), |p|, s)
    decreases s
  {
    if s == [] {
      assert p + [] == p;
    } else {
      var q := QuoteUnit(s[0]);
      assert p + Quote(s) == (p + q) + Quote(s[1..]);
      QuoteIsQuotedAt(p + q, s[1..]);
      assert (p + Quote(s))[|p|..|p| + |q|] == q;
    }
  }

  /** One quoted code unit decodes to itself. */
  lemma QuoteUnitDecodes(code: seq<CodeUnit>, i: nat, c: CodeUnit, strict: bool)
    requires i + |QuoteUnit(c)| <= |code| && code[i..i + |QuoteUnit(c)|] == QuoteUnit(c)
    ensures Decode(code, i, strict, true) == Prepend([c], Decode(code, i + |QuoteUnit(c)|, strict, true))
  {
    var q := QuoteUnit(c);
    assert code[i] == q[0];
    if |q| == 2 {
      assert code[i + 1] == q[1];
      assert Escape(code, i + 1, strict, true) == Ok(Step([c], i + 2));
    }
  }

  /** Unescaping undoes quoting, whenever unknown escapes drop their
      backslash (as the two-argument overload has it). */
  lemma {:induction false} QuoteRoundTrip(code: seq<CodeUnit>, i: nat, s: seq<CodeUnit>, strict: bool)
    requires QuotedAt(code, i, s)
    ensures i <= |code| && Decode(code, i, strict, true) == Ok(s)
    decreases s
  {
    if s != [] {
      var q := QuoteUnit(s[0]);
      var t := s[1..];
      QuoteUnitDecodes(code, i, s[0], strict);
      QuoteRoundTrip(code, i + |q|, t, strict);
      PrependOk([s[0]], t);
      assert [s[0]] + t == s;
    }
  }

  lemma UnescapeQuoted(s: seq<CodeUnit>, strict: bool)
    ensures Unescaped(Quote(s), strict, true) == Ok(s)
  {
    QuoteIsQuotedAt([], s);
    assert [] + Quote(s) == Quote(s);
    QuoteRoundTrip(Quote(s), 0, s, strict);
  }

  /** The lower-case hexadecimal digit of a value below 16. */
  function HexChar(d: nat): (c: CodeUnit)
    requires d < 16
    ensures IsHexDigit(c) && IsAlnum(c) && DigitValue(c) == d
  {
    if d < 10 then (48 + d) as CodeUnit else (87 + d) as CodeUnit
  }

  /** `\uXXXX` with four lower-case hexadecimal digits. */
  function UnicodeEscape(c: CodeUnit): (r: seq<CodeUnit>)
    ensures |r| == 6
  {
    var n := c as int;
    [Backslash, 117, HexChar(n / 4096), HexChar(n / 256 % 16), HexChar(n / 16 % 16), HexChar(n % 16)]
  }

  /** The four digits of `\uXXXX` read back as the code unit. */
  lemma UnicodeField(c: CodeUnit)
    ensures HexField(UnicodeEscape(c)[2..]) == Some(c)
  {
    var n := c as int;
    var ds := UnicodeEscape(c)[2..];
    HexFieldOfDigits(ds);
    var q1, q2, q3 := n / 16, n / 256, n / 4096;
    assert q2 == q1 / 16 && q3 == q2 / 16;
    assert ds[..3][..2][..1] == [ds[0]] && ds[..3][..2] == ds[..2] && ds[..3] == ds[..3];
    assert Value(ds[..1], 16) == q3 by {
      assert ds[..1][..0] == [];
    }
    assert Value(ds[..2], 16) == q2 by {
      assert ds[..2][..1] == ds[..1];
    }
    assert Value(ds[..3], 16) == q1 by {
      assert ds[..3][..2] == ds[..2];
    }
    assert Value(ds, 16) == n by {
      assert ds[..4 - 1] == ds[..3];
    }
  }

  function UnicodeQuote(s: seq<CodeUnit>): seq<CodeUnit> {
    if s == [] then [] else UnicodeEscape(s[0]) + UnicodeQuote(s[1..])
  }

  /** Text written entirely as `\u` escapes decodes to itself in every
      mode. */
  lemma {:induction false} UnicodeRoundTrip(code: seq<CodeUnit>, i: nat, s: seq<CodeUnit>, strict: bool, processUnknown: bool)
    requires i <= |code| && code[i..] == UnicodeQuote(s)
    ensures Decode(code, i, strict, processUnknown) == Ok(s)
    decreases s
  {
    if s == [] {
      assert i == |code|;
    } else {
      var q := UnicodeEscape(s[0]);
      assert code[i..i + 6] == q && code[i + 6..] == UnicodeQuote(s[1..]) by {
        assert code[i..] == q + UnicodeQuote(s[1..]);
      }
      assert code[i] == Backslash && code[i + 1] == 117;
      assert code[i + 2..i + 6] == q[2..];
      UnicodeField(s[0]);
      UnicodeRoundTrip(code, i + 6, s[1..], strict, processUnknown);
      assert [s[0]] + s[1..] == s;
    }
  }

  lemma UnescapeUnicodeQuoted(s: seq<CodeUnit>, strict: bool, processUnknown: bool)
    ensures Unescaped(UnicodeQuote(s), strict, processUnknown) == Ok(s)
  {
    UnicodeRoundTrip(UnicodeQuote(s), 0, s, strict, processUnknown);
  }
}
