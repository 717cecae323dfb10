/** Properties of `Tools.ParseNumber` (Core/Tools.cs:370-607), stated on
    the specification functions of module NumberSpec, which the scanner
    of module NumberScan is proved to compute. */
module NumberProps {
  import opened Base
  import opened Chars
  import opened NumberSpec

  //-------------------------------------------------------------------------
  // Worked inputs
  //-------------------------------------------------------------------------

  /** "00": the zero-skipping loop stops on the last character and the
      radix test then reads one past the end. */
  lemma DoubleZeroReadsPastEnd()
    ensures ParseNumberSpec([48, 48], 0, 0, Default) == Err(IndexOutOfRange)
  {
    assert RunEnd([48, 48], 0, IsBlank) == 0;
    assert ZeroRun([48, 48], 0) == 1;
  }

  /** "1e": the exponent's sign test reads one past the end. */
  lemma TrailingExponentReadsPastEnd()
    ensures ParseNumberSpec([49, 101], 0, 0, Default) == Err(IndexOutOfRange)
  {
    assert RunEnd([49, 101], 0, IsBlank) == 0;
    assert RunEnd([49, 101], 0, IsDigit) == 1;
  }

  /** "07" under RaiseIfOctal is refused. */
  lemma LegacyOctalRaises()
    ensures ParseNumberSpec([48, 55], 0, 0, Options(true, true, true, true)) == Err(SyntaxError)
  {
    assert RunEnd([48, 55], 0, IsBlank) == 0;
  }

  const ZeroZeroPointZero: seq<CodeUnit> := [48, 48, 46, 48]   // "00.0"

  /** "00.0": the first zero is skipped, leaving "0.0" in radix 0. */
  lemma ZeroZeroPointZeroPrefix()
    ensures AutoRadix(ZeroZeroPointZero, 0, 0, Default) == Ok(Prefix(1, 0, false, true))
  {
    assert ZeroRun(ZeroZeroPointZero, 0) == 1;
  }

  /** "0.0" after the skip: a zero mantissa of two digits, scale -1. */
  lemma ZeroZeroPointZeroMantissa()
    ensures DecimalMantissa(ZeroZeroPointZero, Prefix(1, 0, false, true)) == (Mantissa(4, 0, 2, -1), true)
  {
    var code := ZeroZeroPointZero;
    assert RunEnd(code, 1, IsDigit) == 2;
    assert RunEnd(code, 3, IsDigit) == 4;
    assert IntegerPart(code, 1) == Mantissa(2, 0, 1, 0);
    assert code[3..4] == [48] && Accumulate(0, [48]) == 0;
  }

  /** "00.0": zeros were skipped and the mantissa is zero, which the
      source refuses as an octal literal. */
  lemma SkippedZerosRaise()
    ensures ParseNumberSpec(ZeroZeroPointZero, 0, 0, Default) == Err(SyntaxError)
  {
    var code := ZeroZeroPointZero;
    assert RunEnd(code, 0, IsBlank) == 0;
    assert !WordAt(code, 0, NaNWord);
    assert SignAt(code, 0) == (1, 0);
    assert ZerosThrough(code, 0, 1);
    assert DigitRun(code, 3, 4) by {
      assert code[3..4] == [Digit0];
    }
    SkippedZerosRaiseAll(code, 0, 0, 1, 4, 1, Default);
  }

  /** " NaN": the blank is skipped and the index ends after the word. */
  lemma BlankThenNaN()
    ensures ParseNumberSpec([32, 78, 97, 78], 0, 0, Default) == Ok(Scan(true, NaN, 4))
  {
    assert RunEnd([32, 78, 97, 78], 0, IsBlank) == 1;
  }

  /** "\n1": a line terminator is not skipped, so nothing parses. */
  lemma LineTerminatorNotSkipped()
    ensures ParseNumberSpec([10, 49], 0, 0, Default) == Ok(Scan(false, NaN, 0))
  {
    assert RunEnd([10, 49], 0, IsBlank) == 0;
  }

  //-------------------------------------------------------------------------
  // Early exits (Tools.cs:379-420)
  //-------------------------------------------------------------------------

  /** After the sign, a successful scan is "Infinity" exactly when that
      word follows; otherwise it is one of the two digit numerals. */
  lemma SignedNumberShape(code: seq<CodeUnit>, index: nat, i: nat, sig: int, radix: int, options: Options)
    requires index <= i <= |code| < 0x8000_0000 && ValidRadix(radix)
    ensures var r := SignedNumber(code, index, i, sig, radix, options);
      r.Ok? && r.value.ok ==> (r.value.value.Infinity? <==> WordAt(code, i, InfinityWord))
    ensures var r := SignedNumber(code, index, i, sig, radix, options);
      r.Ok? && r.value.ok ==> r.value.value.Infinity? || r.value.value.Decimal? || r.value.value.Integer?
  {
  }

  /** The scan succeeds with zero, leaving `index` alone, exactly when the
      rest of the text is white space other than line terminators. */
  lemma BlankIsZero(code: seq<CodeUnit>, index: nat, radix: int, options: Options)
    requires index <= |code| < 0x8000_0000 && ValidRadix(radix)
    ensures ParseNumberSpec(code, index, radix, options) == Ok(Scan(true, Zero, index))
      <==> forall k | index <= k < |code| :: IsBlank(code[k])
  {
    if |code| > 0 {
      var i := RunEnd(code, index, IsBlank);
      if forall k | index <= k < |code| :: IsBlank(code[k]) {
        RunEndUnique(code, index, |code|, IsBlank);
      } else if i < |code| && !WordAt(code, i, NaNWord) {
        var signed := SignAt(code, i);
        SignedNumberShape(code, index, signed.1, signed.0, radix, options);
      }
    }
  }

  /** A successful NaN comes only from the word "NaN" right after the
      white space, and leaves `index` just past it. */
  lemma NaNIsTheWord(code: seq<CodeUnit>, index: nat, radix: int, options: Options)
    requires index <= |code| < 0x8000_0000
    ensures var r := ParseNumberSpec(code, index, radix, options);
      var i := RunEnd(code, index, IsBlank);
      (r.Ok? && r.value.ok && r.value.value == NaN)
        <==> ValidRadix(radix) && WordAt(code, i, NaNWord)
    ensures var r := ParseNumberSpec(code, index, radix, options);
      r.Ok? && r.value.ok && r.value.value == NaN ==> r.value.index == RunEnd(code, index, IsBlank) + 3
  {
    if ValidRadix(radix) && |code| > 0 {
      var i := RunEnd(code, index, IsBlank);
      if i < |code| && !WordAt(code, i, NaNWord) {
        var signed := SignAt(code, i);
        SignedNumberShape(code, index, signed.1, signed.0, radix, options);
      }
    }
  }

  /** A successful Infinity comes only from the word "Infinity" after the
      white space and an optional sign; its sign is the sign's, and
      `index` ends just past the word. */
  lemma InfinityIsTheWord(code: seq<CodeUnit>, index: nat, radix: int, options: Options)
    requires index <= |code| < 0x8000_0000
    ensures var r := ParseNumberSpec(code, index, radix, options);
      var i := RunEnd(code, index, IsBlank);
      (r.Ok? && r.value.ok && r.value.value.Infinity?)
        <==> ValidRadix(radix) && i < |code| && WordAt(code, SignAt(code, i).1, InfinityWord)
    ensures var r := ParseNumberSpec(code, index, radix, options);
      var i := RunEnd(code, index, IsBlank);
      r.Ok? && r.value.ok && r.value.value.Infinity? ==>
        r.value.value.sign == (if code[i] == Minus then -1 else 1) && r.value.index == SignAt(code, i).1 + 8
  {
    if ValidRadix(radix) && |code| > 0 {
      var i := RunEnd(code, index, IsBlank);
      if i < |code| {
        var signed := SignAt(code, i);
        if WordAt(code, i, NaNWord) {
          assert code[i] == 78;
          assert !WordAt(code, signed.1, InfinityWord) by {
            assert signed.1 == i;
            assert code[i..i + 3][0] == 78;
          }
        } else {
          SignedNumberShape(code, index, signed.1, signed.0, radix, options);
        }
      }
    }
  }

  //-------------------------------------------------------------------------
  // Auto-radix prefix (Tools.cs:421-444)
  //-------------------------------------------------------------------------

  /** `code[i..=k]` is all zeros and the next code unit, if any, is not. */
  predicate ZerosThrough(code: seq<CodeUnit>, i: nat, k: nat) {
    i <= k < |code| && (forall j | i <= j <= k :: code[j] == Digit0) && (k + 1 < |code| ==> code[k + 1] != Digit0)
  }

  /** The zero loop stops on the last zero of the run. */
  lemma {:induction false} ZeroRunEnds(code: seq<CodeUnit>, i: nat, k: nat)
    requires ZerosThrough(code, i, k)
    ensures ZeroRun(code, i) == k
    decreases k - i
  {
    if i < k {
      ZeroRunEnds(code, i + 1, k);
    }
  }

  /** Zeros and then 'x' or 'X': hexadecimal from after the 'x', with no
      digit seen yet; `skipped` says whether more than one zero came first. */
  lemma HexPrefix(code: seq<CodeUnit>, i: nat, k: nat, radix: int, options: Options)
    requires ZerosThrough(code, i, k) && k + 1 < |code| && (code[k + 1] == 120 || code[k + 1] == 88)
    requires options.allowAutoRadix && (radix == 0 || radix == 16)
    ensures AutoRadix(code, i, radix, options) == Ok(Prefix(k + 2, 16, false, k > i))
  {
    ZeroRunEnds(code, i, k);
  }

  /** Zeros and then another decimal digit, with no radix given: a legacy
      octal literal. It raises under `raiseIfOctal`; otherwise it is octal
      under `processOctal` and decimal without it, and the last zero counts
      as a digit seen. */
  lemma LegacyOctalPrefix(code: seq<CodeUnit>, i: nat, k: nat, options: Options)
    requires ZerosThrough(code, i, k) && k + 1 < |code| && IsDigit(code[k + 1])
    requires options.allowAutoRadix
    ensures AutoRadix(code, i, 0, options) ==
      if options.raiseIfOctal then Err(SyntaxError)
      else Ok(Prefix(k + 1, if options.processOctal then 8 else 0, true, k > i))
  {
    ZeroRunEnds(code, i, k);
  }

  /** Two or more zeros that end the text: the source reads past the end. */
  lemma ZerosAtEndReadPastEnd(code: seq<CodeUnit>, i: nat, radix: int, options: Options)
    requires i + 1 < |code| && ZerosThrough(code, i, |code| - 1)
    requires options.allowAutoRadix && (radix == 0 || radix == 16)
    ensures AutoRadix(code, i, radix, options) == Err(IndexOutOfRange)
  {
    ZeroRunEnds(code, i, |code| - 1);
  }

  /** Without a leading zero, or with auto-radix off, there is no prefix. */
  lemma NoPrefix(code: seq<CodeUnit>, i: nat, radix: int, options: Options)
    requires i <= |code| && ValidRadix(radix)
    requires !options.allowAutoRadix || i == |code| || code[i] != Digit0
    ensures AutoRadix(code, i, radix, options) == Ok(Prefix(i, radix, false, false))
  {
  }

  //-------------------------------------------------------------------------
  // Integer branch (Tools.cs:564-606)
  //-------------------------------------------------------------------------

  /** With the digits of the radix taken from the reference table rather
      than from `anum`: the integer branch reads the longest run of such
      digits, and its magnitude is their value in that radix. It fails only
      when there is no digit and the prefix saw none. */
  lemma IntegerBranchDigits(code: seq<CodeUnit>, index: nat, p: Prefix, sig: int, e: nat)
    requires index <= p.i <= e <= |code| && ValidRadix(p.radix)
    requires var radix := if p.radix == 0 then 10 else p.radix;
      AllDigits(code[p.i..e], radix) && (e == |code| || !(IsAlnum(code[e]) && DigitValue(code[e]) < radix))
    ensures var radix := if p.radix == 0 then 10 else p.radix;
      var n := Value(code[p.i..e], radix);
      IntegerBranch(code, index, p, sig) ==
        if e == p.i && !p.res then Ok(Scan(false, NaN, index))
        else Ok(Scan(true, Integer(sig, n, n >= ExtendedThreshold), e))
  {
    var radix := if p.radix == 0 then 10 else p.radix;
    forall k | p.i <= k < e
      ensures DigitOf(radix)(code[k])
    {
      assert code[p.i..e][k - p.i] == code[k];
      AcceptsDigitIff(code[k], radix);
    }
    if e < |code| {
      AcceptsDigitIff(code[e], radix);
    }
    RunEndUnique(code, p.i, e, DigitOf(radix));
  }

  //-------------------------------------------------------------------------
  // Decimal branch (Tools.cs:445-563)
  //-------------------------------------------------------------------------

  /** Feeding two digit strings one after the other is feeding their
      concatenation. */
  lemma {:induction false} AccumulateConcat(t: nat, a: seq<CodeUnit>, b: seq<CodeUnit>)
    requires DecimalRun(a) && DecimalRun(b)
    ensures DecimalRun(a + b)
    ensures Accumulate(t, a + b) == Accumulate(Accumulate(t, a), b)
  {
    if b == [] {
      assert a + b == a;
    } else {
      var init := b[..|b| - 1];
      assert (a + b)[..|a + b| - 1] == a + init;
      assert (a + b)[|a + b| - 1] == b[|b| - 1];
      AccumulateConcat(t, a, init);
    }
  }

  /** The digits `i..j` are the longest run of decimal digits from `i`. */
  predicate DigitRun(code: seq<CodeUnit>, i: nat, j: nat) {
    i <= j <= |code| && DecimalRun(code[i..j]) && (j == |code| || !IsDigit(code[j]))
  }

  lemma DigitRunEnd(code: seq<CodeUnit>, i: nat, j: nat)
    requires DigitRun(code, i, j)
    ensures RunEnd(code, i, IsDigit) == j
  {
    forall k | i <= k < j
      ensures IsDigit(code[k])
    {
      assert code[i..j][k - i] == code[k];
    }
    RunEndUnique(code, i, j, IsDigit);
  }

  /** Storing at most 19 digits of `a` and then as many of `b` as still fit
      stores the first 19 digits of `a + b`. */
  lemma StoredPrefix(a: seq<CodeUnit>, b: seq<CodeUnit>)
    requires DecimalRun(a) && DecimalRun(b)
    ensures var s1 := Min(|a|, 19);
      var s2 := Min(|b|, 19 - s1);
      s1 + s2 == Min(|a + b|, 19) && DecimalRun(a[..s1]) && DecimalRun(b[..s2])
        && AllDigits(a[..s1], 10) && AllDigits((a + b)[..s1 + s2], 10)
        && Accumulate(Value(a[..s1], 10), b[..s2]) == Value((a + b)[..s1 + s2], 10)
  {
    var s1 := Min(|a|, 19);
    var s2 := Min(|b|, 19 - s1);
    var x, y := a[..s1], b[..s2];
    assert DecimalRun(x) && DecimalRun(y);
    if s1 < 19 {
      assert x == a;
    } else {
      assert y == [];
    }
    assert (a + b)[..s1 + s2] == x + y;
    AccumulateValue(x);
    AccumulateConcat(0, x, y);
    AccumulateValue(x + y);
  }

  /** The integer part stores the first 19 digits of its run. */
  lemma IntegerPartStores(code: seq<CodeUnit>, i: nat, e: nat)
    requires DigitRun(code, i, e)
    ensures var ip := IntegerPart(code, i);
      ip.next == e && ip.scount == Min(e - i, 19) && ip.deg == (e - i) - ip.scount
        && AllDigits(code[i..e][..ip.scount], 10)
        && ip.temp == Value(code[i..e][..ip.scount], 10)
  {
    DigitRunEnd(code, i, e);
    var s := Min(e - i, 19);
    assert code[i..e][..s] == code[i..i + s];
  }

  /** The fraction feeds the first digits of its run that still fit. */
  lemma FractionPartStores(code: seq<CodeUnit>, d: nat, f: nat, m: Mantissa)
    requires DigitRun(code, d, f) && m.scount <= 19
    ensures var r := FractionPart(code, d, m);
      var s := Min(f - d, 19 - m.scount);
      r.next == f && r.scount == m.scount + s && r.deg == m.deg - s
        && DecimalRun(code[d..f][..s]) && r.temp == Accumulate(m.temp, code[d..f][..s])
  {
    DigitRunEnd(code, d, f);
    var s := Min(f - d, 19 - m.scount);
    assert code[d..f][..s] == code[d..d + s];
  }

  /** The decimal digits with a '.': the stored digits are the first 19
      of the integer digits followed by the fraction digits. `ip` is what
      `IntegerPartStores` says of the integer part. */
  lemma MantissaWithDot(code: seq<CodeUnit>, i: nat, e: nat, f: nat, ip: Mantissa)
    requires DigitRun(code, i, e) && e < |code| && DigitRun(code, e + 1, f)
    requires ip.scount == Min(e - i, 19) && ip.deg == (e - i) - ip.scount
    requires AllDigits(code[i..e][..ip.scount], 10) && ip.temp == Value(code[i..e][..ip.scount], 10)
    ensures var m := FractionPart(code, e + 1, ip);
      var digits := code[i..e] + code[e + 1..f];
      m.next == f && m.scount == Min(|digits|, 19) && m.temp == Value(digits[..m.scount], 10)
        && m.deg == (e - i) - m.scount
  {
    FractionPartStores(code, e + 1, f, ip);
    StoredPrefix(code[i..e], code[e + 1..f]);
  }

  /** What the decimal digits mean when there is a '.': the integer
      digits and the fraction digits are read as one digit string. The
      mantissa is the value of its first 19 digits (or all of them if
      fewer), and the scale `deg` is the number of integer digits less the
      number stored. A digit is seen exactly when the prefix saw one or
      the string is not empty. */
  lemma MantissaDigitsWithDot(code: seq<CodeUnit>, p: Prefix, e: nat, f: nat)
    requires DigitRun(code, p.i, e) && e < |code| && code[e] == Dot && DigitRun(code, e + 1, f)
    ensures var r := DecimalMantissa(code, p);
      var digits := code[p.i..e] + code[e + 1..f];
      r.0.next == f && r.0.scount == Min(|digits|, 19) && r.0.temp == Value(digits[..r.0.scount], 10)
        && r.0.deg == (e - p.i) - r.0.scount && (r.1 <==> p.res || |digits| > 0)
  {
    IntegerPartStores(code, p.i, e);
    var ip := IntegerPart(code, p.i);
    MantissaWithDot(code, p.i, e, f, ip);
  }

  /** Without a '.', the mantissa is the value of the first 19 integer
      digits and `deg` counts the integer digits not stored. */
  lemma MantissaDigitsWithoutDot(code: seq<CodeUnit>, p: Prefix, e: nat)
    requires DigitRun(code, p.i, e) && !(e < |code| && code[e] == Dot)
    ensures var r := DecimalMantissa(code, p);
      var digits := code[p.i..e];
      r.0.next == e && r.0.scount == Min(|digits|, 19) && r.0.temp == Value(digits[..r.0.scount], 10)
        && r.0.deg == (e - p.i) - r.0.scount && (r.1 <==> p.res || |digits| > 0)
  {
    IntegerPartStores(code, p.i, e);
  }

  /** The sign of an exponent: `44 - c` after the 'e' when `c` is '+',
      ',' or '-' (so ',' is a sign of zero), and 1 otherwise. */
  function ExponentSign(c: CodeUnit): int {
    if 43 <= c <= 45 then 44 - c as int else 1
  }

  /** When neither the exponent's digits nor the new scale overflow `int`,
      the exponent adds exactly its signed value to the scale, and the
      cursor ends after the longest run of exponent digits. */
  lemma ExponentAdds(code: seq<CodeUnit>, i: nat, deg: int, start: nat, e: nat)
    requires i + 1 < |code| && (code[i] == 101 || code[i] == 69) && -0x8000_0000 <= deg < 0x8000_0000
    requires start == if 43 <= code[i + 1] <= 45 then i + 2 else i + 1
    requires DigitRun(code, start, e)
    requires var v := Accumulate(0, code[start..e]);
      v < 0x8000_0000 && -0x8000_0000 <= deg + ExponentSign(code[i + 1]) * v < 0x8000_0000
    ensures Exponent(code, i, deg) == Ok((e, deg + ExponentSign(code[i + 1]) * Accumulate(0, code[start..e])))
  {
    DigitRunEnd(code, start, e);
    AccumulateValue(code[start..e]);
    var v: int := Accumulate(0, code[start..e]);
    var es := ExponentSign(code[i + 1]);
    var td := Wrap32(v);
    assert td as int == v;
    var p: int := td as int * es;
    if es == 1 {
      assert p == v;
    } else if es == 0 {
      assert p == 0;
    } else {
      assert es == -1 && p == -v;
    }
    assert p == es * v && Wrap32(p) as int == p;
    assert Wrap32(deg + p) as int == deg + p;
  }

  //-------------------------------------------------------------------------
  // Bad radix and the outcomes of the decimal reconstruction
  // (Tools.cs:379-380 and 514-559)
  //-------------------------------------------------------------------------

  /** A radix other than 0 or 2-36 fails at once: NaN, index unchanged. */
  lemma BadRadix(code: seq<CodeUnit>, index: nat, radix: int, options: Options)
    requires index <= |code| < 0x8000_0000 && !ValidRadix(radix)
    ensures ParseNumberSpec(code, index, radix, options) == Ok(Scan(false, NaN, index))
  {
  }

  /** A digit string made of zeros has the value 0. */
  lemma {:induction false} ZerosValue(s: seq<CodeUnit>)
    requires forall k | 0 <= k < |s| :: s[k] == Digit0
    ensures AllDigits(s, 10) && Value(s, 10) == 0
  {
    if s != [] {
      ZerosValue(s[..|s| - 1]);
    }
  }

  /** A digit string made of nines has the value 10^n - 1. */
  lemma {:induction false} NinesValue(s: seq<CodeUnit>)
    requires forall k | 0 <= k < |s| :: s[k] == 57
    ensures AllDigits(s, 10) && Value(s, 10) == Pow(10, |s|) - 1
  {
    if s != [] {
      NinesValue(s[..|s| - 1]);
    }
  }

  /** A run of decimal digits with neither a '.' nor an exponent after it,
      read by the decimal branch: the first 19 digits are the mantissa and
      each further digit raises the scale by one. The reconstruction then
      throws OverflowException when the scale is 10 or more and the
      mantissa times 10^10 exceeds `decimal.MaxValue`; a zero mantissa after
      skipped zeros is a SyntaxError unless its scale makes it NaN. */
  lemma PlainDigitsDecimal(code: seq<CodeUnit>, index: nat, p: Prefix, sig: int, e: nat)
    requires index <= p.i && |code| < 0x8000_0000 && DigitRun(code, p.i, e) && (p.res || e > p.i)
    requires e == |code| || (code[e] != Dot && code[e] != 101 && code[e] != 69)
    ensures var digits := code[p.i..e];
      var s := Min(|digits|, 19);
      AllDigits(digits[..s], 10) &&
      var temp := Value(digits[..s], 10);
      var deg := |digits| - s;
      DecimalBranch(code, index, p, sig) ==
        if deg >= 10 && temp * 10_000_000_000 > DecimalMax then Err(Overflow)
        else if temp == 0 && p.skipped && deg < ZeroTimesInfinity then Err(SyntaxError)
        else Ok(Scan(true, Decimal(sig, temp, deg), e))
  {
    MantissaDigitsWithoutDot(code, p, e);
  }

  /** Twenty-nine nines: the mantissa is 10^19 - 1 with scale 10, and
      `(decimal)temp * 10^10` overflows. */
  lemma TwentyNineNinesOverflow(code: seq<CodeUnit>)
    requires |code| == 29 && forall k | 0 <= k < 29 :: code[k] == 57
    ensures ParseNumberSpec(code, 0, 0, Default) == Err(Overflow)
  {
    assert RunEnd(code, 0, IsBlank) == 0;
    assert !WordAt(code, 0, NaNWord) && !WordAt(code, 0, InfinityWord);
    NoPrefix(code, 0, 0, Default);
    var p := Prefix(0, 0, false, false);
    assert DigitRun(code, 0, 29) by {
      assert code[0..29] == code;
    }
    PlainDigitsDecimal(code, 0, p, 1, 29);
    assert code[0..29][..19] == code[..19];
    NinesValue(code[..19]);
    TenPow19();
  }

  lemma TenPow19()
    ensures Pow(10, 19) == 10_000_000_000_000_000_000
  {
    assert Pow(10, 4) == 10_000;
    assert Pow(10, 8) == 100_000_000 by { PowAdd(10, 4, 4); }
    assert Pow(10, 16) == 10_000_000_000_000_000 by { PowAdd(10, 8, 8); }
    assert Pow(10, 3) == 1_000;
    PowAdd(10, 16, 3);
  }

  /** Zeros the prefix skips, then either a '.' followed only by zeros, or
      a code unit that is none of a digit, 'x', 'X', '.', 'e' and 'E': the
      mantissa is zero and the scan raises SyntaxError. */
  lemma SkippedZerosRaiseAll(code: seq<CodeUnit>, index: nat, i: nat, k: nat, f: nat, sig: int, options: Options)
    requires index <= i < k && ZerosThrough(code, i, k) && k + 1 < |code| < 0x8000_0000
    requires options.allowAutoRadix && options.allowFloat
    requires code[k + 1] != 120 && code[k + 1] != 88 && !IsDigit(code[k + 1])
    requires if code[k + 1] == Dot then DigitRun(code, k + 2, f) && (forall j | k + 2 <= j < f :: code[j] == Digit0)
             else f == k + 1
    requires f == |code| || (code[f] != 101 && code[f] != 69)
    ensures SignedNumber(code, index, i, sig, 0, options) == Err(SyntaxError)
  {
    ZeroRunEnds(code, i, k);
    var p := Prefix(k, 0, false, true);
    assert AutoRadix(code, i, 0, options) == Ok(p);
    assert !WordAt(code, i, InfinityWord) by {
      assert code[i] == Digit0;
    }
    assert DigitRun(code, k, k + 1) by {
      assert code[k..k + 1] == [code[k]];
    }
    if code[k + 1] == Dot {
      MantissaDigitsWithDot(code, p, k + 1, f);
      ZeroDigitsValue(code, k, f, DecimalMantissa(code, p).0.scount);
    } else {
      MantissaDigitsWithoutDot(code, p, k + 1);
      ZerosValue(code[k..k + 1][..1]);
    }
  }

  /** The zero before the '.' and the zeros after it: any prefix of them
      has the value 0. */
  lemma ZeroDigitsValue(code: seq<CodeUnit>, k: nat, f: nat, n: nat)
    requires k + 2 <= f <= |code| && code[k] == Digit0 && (forall j | k + 2 <= j < f :: code[j] == Digit0)
    requires n <= f - k - 1
    ensures var digits := code[k..k + 1] + code[k + 2..f];
      AllDigits(digits[..n], 10) && Value(digits[..n], 10) == 0
  {
    var digits := code[k..k + 1] + code[k + 2..f];
    forall j | 0 <= j < n ensures digits[..n][j] == Digit0 {
      if j > 0 {
        assert digits[j] == code[k + 2..f][j - 1] == code[k + 1 + j];
      }
    }
    ZerosValue(digits[..n]);
  }

  const ZeroZeroE400: seq<CodeUnit> := [48, 48, 101, 52, 48, 48]   // "00e400"

  /** "00e400": the first zero is skipped, and "0" is the mantissa. */
  lemma ZeroZeroE400Mantissa()
    ensures AutoRadix(ZeroZeroE400, 0, 0, Default) == Ok(Prefix(1, 0, false, true))
    ensures DecimalMantissa(ZeroZeroE400, Prefix(1, 0, false, true)) == (Mantissa(2, 0, 1, 0), true)
  {
    var code := ZeroZeroE400;
    assert ZeroRun(code, 0) == 1;
    assert RunEnd(code, 1, IsDigit) == 2;
    assert code[1..2] == [48] && Value([48], 10) == 0 by {
      assert [48][..0] == [];
    }
  }

  /** "e400" after the mantissa: the scale becomes 400. */
  lemma ZeroZeroE400Exponent()
    ensures Exponent(ZeroZeroE400, 2, 0) == Ok((6, 400))
  {
    var code := ZeroZeroE400;
    assert RunEnd(code, 3, IsDigit) == 6;
    var digits: seq<CodeUnit> := [52, 48, 48];
    assert code[3..6] == digits;
    assert Value(digits, 10) == 400 by {
      assert digits[..2] == [52, 48] && [52, 48][..1] == [52] && [52][..0] == [];
    }
  }

  /** "00e400": the mantissa is zero and the scale 400, so the double is
      `0 * Math.Pow(10, 390)`, NaN rather than 0, and the test for skipped
      zeros does not fire. */
  lemma ZeroMantissaHugeScale()
    ensures ParseNumberSpec(ZeroZeroE400, 0, 0, Default) == Ok(Scan(true, Decimal(1, 0, 400), 6))
  {
    var code := ZeroZeroE400;
    assert RunEnd(code, 0, IsBlank) == 0;
    assert !WordAt(code, 0, NaNWord) && !WordAt(code, 0, InfinityWord);
    ZeroZeroE400Mantissa();
    ZeroZeroE400Exponent();
  }
}
