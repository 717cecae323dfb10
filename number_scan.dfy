/** `Tools.ParseNumber` (Core/Tools.cs:370-607) as the cursor-driven scanner
    it is: each of its loops is a method here, proved to compute the
    function of module NumberSpec that describes it, and `ParseNumber`
    strings them together exactly as the source does. */
module NumberScan {
  import opened Base
  import opened Chars
  import opened NumberSpec

  /** The white-space skip at Tools.cs:387-388. */
  method SkipBlank(code: seq<CodeUnit>, index: nat) returns (i: nat)
    requires index <= |code|
    ensures i == RunEnd(code, index, IsBlank)
  {
    i := index;
    while i < |code| && IsWhiteSpace(code[i]) && !IsLineTerminator(code[i])
      invariant index <= i <= |code|
      invariant forall k | index <= k < i :: IsBlank(code[k])
    {
      i := i + 1;
    }
    RunEndUnique(code, index, i, IsBlank);
  }

  /** The literal loops for "NaN" (Tools.cs:395-405) and "Infinity"
      (Tools.cs:410-420): walk while the text agrees with the word and
      succeed on reaching its final letter, which occurs nowhere else in the
      word after its first position. */
  method MatchWord(code: seq<CodeUnit>, i: nat, word: seq<CodeUnit>) returns (found: bool)
    requires i <= |code| && |word| >= 2
    requires forall k | 0 < k < |word| - 1 :: word[k] != word[|word| - 1]
    ensures found <==> WordAt(code, i, word)
  {
    var j := i;
    while j - i < |word| && j < |code|
      invariant i <= j <= |code| && j - i < |word|
      invariant code[i..j] == word[..j - i]
    {
      if code[j] != word[j - i] {
        if i + |word| <= |code| {
          assert code[i..i + |word|][j - i] == code[j];
        }
        return false;
      } else if j > i && code[j] == word[|word| - 1] {
        assert j - i == |word| - 1;
        SliceSnoc(code, i, j);
        return true;
      }
      SliceSnoc(code, i, j);
      j := j + 1;
    }
    return false;
  }

  /** `temp = temp * 10 + (code[i] - '0')` in both decimal loops
      (Tools.cs:459, 481). With at most 18 digits stored before, the
      `ulong` cannot overflow. */
  method PushDigit(temp: UInt64, c: CodeUnit, ghost temp0: nat, ghost scount0: nat, ghost stored: seq<CodeUnit>)
    returns (t: UInt64)
    requires DecimalRun(stored) && IsDigit(c) && scount0 + |stored| <= 18
    requires temp0 < Pow(10, scount0) && temp as int == Accumulate(temp0, stored)
    ensures DecimalRun(stored + [c])
    ensures t as int == Accumulate(temp0, stored + [c])
  {
    AccumulateBound(temp0, scount0, stored);
    var n := scount0 + |stored|;
    ShiftBound(temp as int, c as int - 48, 10, Pow(10, n));
    Pow10Bound(n + 1);
    assert (stored + [c])[..|stored|] == stored;
    t := (temp as int * 10 + (c as int - 48)) as UInt64;
  }

  /** One accepted digit of the integer branch: `anum` gives its value,
      the value never shrinks, and from below 2^57 it stays below 2^64. */
  lemma RadixStep(prefix: seq<CodeUnit>, c: CodeUnit, radix: int)
    requires 2 <= radix <= 36 && AllDigits(prefix, radix) && AcceptsDigit(c, radix)
    ensures AllDigits(prefix + [c], radix)
    ensures Anum(c) < radix
    ensures Value(prefix + [c], radix) == Value(prefix, radix) * radix + Anum(c)
    ensures Value(prefix + [c], radix) >= Value(prefix, radix)
    ensures Value(prefix, radix) < ExtendedThreshold ==> Value(prefix + [c], radix) < 0x1_0000_0000_0000_0000
  {
    AcceptedValue(c, radix);
    ValueSnoc(prefix, c, radix);
    RadixArith(Value(prefix, radix), Anum(c), radix);
  }

  /** The arithmetic behind `RadixStep`, on plain numbers. */
  lemma RadixArith(v: nat, d: nat, radix: nat)
    requires 2 <= radix <= 36 && d < radix
    ensures v * radix + d >= v
    ensures v < ExtendedThreshold ==> v * radix + d < 0x1_0000_0000_0000_0000
  {
    assert v * radix >= v * 1;
    if v < ExtendedThreshold {
      ShiftBound(v, d, radix, ExtendedThreshold);
      assert ExtendedThreshold * radix <= ExtendedThreshold * 36;
    }
  }

  /** The integer-part loop of the decimal branch (Tools.cs:450-468). */
  method ScanIntegerPart(code: seq<CodeUnit>, start: nat) returns (i: nat, temp: UInt64, scount: nat, deg: int)
    requires start <= |code|
    ensures Mantissa(i, temp as int, scount, deg) == IntegerPart(code, start)
  {
    i, temp, scount, deg := start, 0, 0, 0;
    ghost var stored: seq<CodeUnit> := [];
    while i < |code|
      invariant start <= i <= |code|
      invariant forall k | start <= k < i :: IsDigit(code[k])
      invariant |stored| == Min(i - start, 19) && stored == code[start..start + |stored|]
      invariant scount == |stored| && deg == i - start - scount
      invariant DecimalRun(stored) && temp as int == Accumulate(0, stored)
    {
      if !IsDigit(code[i]) {
        break;
      }
      if scount <= 18 {
        assert code[start..start + |stored| + 1] == stored + [code[i]];
        temp := PushDigit(temp, code[i], 0, 0, stored);
        stored := stored + [code[i]];
        i := i + 1;
        scount := scount + 1;
      } else {
        deg := deg + 1;
        i := i + 1;
      }
    }
    IntegerPartAt(code, start, i, stored);
  }

  /** Where the integer-part loop stops, its state is `IntegerPart`. */
  lemma IntegerPartAt(code: seq<CodeUnit>, start: nat, i: nat, stored: seq<CodeUnit>)
    requires start <= i <= |code| && (i == |code| || !IsDigit(code[i]))
    requires forall k | start <= k < i :: IsDigit(code[k])
    requires |stored| == Min(i - start, 19) && stored == code[start..start + |stored|] && DecimalRun(stored)
    ensures IntegerPart(code, start) == Mantissa(i, Accumulate(0, stored), |stored|, i - start - |stored|)
  {
    RunEndUnique(code, start, i, IsDigit);
    AccumulateValue(stored);
  }

  /** The fraction loop of the decimal branch (Tools.cs:471-491). `m` is
      the state the integer part left, named for the specification. */
  method ScanFraction(code: seq<CodeUnit>, start: nat, temp0: UInt64, scount0: nat, deg0: int, ghost m: Mantissa)
    returns (i: nat, temp: UInt64, scount: nat, deg: int)
    requires start <= |code| && scount0 <= 19 && temp0 as int < Pow(10, scount0)
    requires m.temp == temp0 as int && m.scount == scount0 && m.deg == deg0
    ensures Mantissa(i, temp as int, scount, deg) == FractionPart(code, start, m)
  {
    i, temp, scount, deg := start, temp0, scount0, deg0;
    ghost var stored: seq<CodeUnit> := [];
    while i < |code|
      invariant start <= i <= |code|
      invariant forall k | start <= k < i :: IsDigit(code[k])
      invariant |stored| == Min(i - start, 19 - scount0) && stored == code[start..start + |stored|]
      invariant scount == scount0 + |stored| && deg == deg0 - |stored|
      invariant DecimalRun(stored) && temp as int == Accumulate(temp0 as int, stored)
    {
      if !IsDigit(code[i]) {
        break;
      }
      if scount <= 18 {
        assert code[start..start + |stored| + 1] == stored + [code[i]];
        temp := PushDigit(temp, code[i], temp0 as int, scount0, stored);
        stored := stored + [code[i]];
        i := i + 1;
        scount := scount + 1;
        deg := deg - 1;
      } else {
        i := i + 1;
      }
    }
    FractionPartAt(code, start, i, stored, m);
  }

  /** Where the fraction loop stops, its state is `FractionPart`. */
  lemma FractionPartAt(code: seq<CodeUnit>, start: nat, i: nat, stored: seq<CodeUnit>, m: Mantissa)
    requires start <= i <= |code| && (i == |code| || !IsDigit(code[i])) && m.scount <= 19
    requires forall k | start <= k < i :: IsDigit(code[k])
    requires |stored| == Min(i - start, 19 - m.scount) && stored == code[start..start + |stored|] && DecimalRun(stored)
    ensures FractionPart(code, start, m) == Mantissa(i, Accumulate(m.temp, stored), m.scount + |stored|, m.deg - |stored|)
  {
    RunEndUnique(code, start, i, IsDigit);
  }

  /** The exponent-digit loop (Tools.cs:500-511). The source guards the
      accumulation with `scount <= 6`, but `scount` is reset to 0 and never
      incremented, so every digit is accumulated into the wrapping `int`. */
  method ScanExponentDigits(code: seq<CodeUnit>, start: nat) returns (i: nat, td: Int32)
    requires start <= |code|
    ensures i == RunEnd(code, start, IsDigit)
    ensures AllDigits(code[start..i], 10) && td == Wrap32(Value(code[start..i], 10))
  {
    i, td := start, 0;
    while i < |code|
      invariant start <= i <= |code|
      invariant forall k | start <= k < i :: IsDigit(code[k])
      invariant AllDigits(code[start..i], 10)
      invariant td == Wrap32(Value(code[start..i], 10))
    {
      if !IsDigit(code[i]) {
        break;
      }
      ValueSnoc(code[start..i], code[i], 10);
      SliceSnoc(code, start, i);
      Wrap32MulAdd(Value(code[start..i], 10), 10, code[i] as int - 48);
      td := Wrap32(td as int * 10 + (code[i] as int - 48));
      i := i + 1;
    }
    RunEndUnique(code, start, i, IsDigit);
  }

  /** The accumulator state of the integer branch after `digits`: the
      `ulong` holds the value while it is below 2^57, after which the
      double takes over (kept exact here). */
  predicate RadixState(digits: seq<CodeUnit>, radix: int, temp: UInt64, doubleTemp: nat, extended: bool)
    requires 2 <= radix <= 36
  {
    AllDigits(digits, radix) &&
    (!extended ==> temp as int == Value(digits, radix) < ExtendedThreshold) &&
    (extended ==> doubleTemp == Value(digits, radix) >= ExtendedThreshold)
  }

  /** One accepted digit of the integer branch (Tools.cs:577-594): add it
      to whichever accumulator is live and switch over once the `ulong`
      reaches 2^57. The `ulong` arithmetic is checked never to overflow. */
  method PushRadixDigit(temp: UInt64, doubleTemp: nat, extended: bool, c: CodeUnit, sign: int, radix: int, ghost digits: seq<CodeUnit>)
    returns (temp': UInt64, doubleTemp': nat, extended': bool)
    requires 2 <= radix <= 36 && AcceptsDigit(c, radix) && sign == Anum(c)
    requires RadixState(digits, radix, temp, doubleTemp, extended)
    ensures RadixState(digits + [c], radix, temp', doubleTemp', extended')
  {
    RadixStep(digits, c, radix);
    ghost var v' := Value(digits + [c], radix);
    temp', doubleTemp', extended' := temp, doubleTemp, extended;
    if extended {
      doubleTemp' := doubleTemp * radix + sign;
    } else {
      assert temp as int * radix + sign == v' < 0x1_0000_0000_0000_0000;
      temp' := (temp as int * radix + sign) as UInt64;
      if temp' as int >= ExtendedThreshold {
        extended' := true;
        doubleTemp' := temp' as nat;
      }
    }
  }

  /** The digit loop of the integer branch (Tools.cs:573-596). */
  method ScanRadixDigits(code: seq<CodeUnit>, start: nat, radix: int) returns (i: nat, magnitude: nat, extended: bool)
    requires start <= |code| && 2 <= radix <= 36
    ensures i == RunEnd(code, start, DigitOf(radix))
    ensures AllDigits(code[start..i], radix) && magnitude == Value(code[start..i], radix)
    ensures extended <==> magnitude >= ExtendedThreshold
  {
    i, extended := start, false;
    var doubleTemp: nat := 0;
    var temp: UInt64 := 0;
    ghost var digits: seq<CodeUnit> := [];
    while i < |code|
      invariant start <= i <= |code| && digits == code[start..i]
      invariant forall k | start <= k < i :: AcceptsDigit(code[k], radix)
      invariant RadixState(digits, radix, temp, doubleTemp, extended)
    {
      var sign := Anum(code[i]);
      if !AcceptsDigit(code[i], radix) {   // the source's test on `sign`, named in module Chars
        break;
      }
      temp, doubleTemp, extended := PushRadixDigit(temp, doubleTemp, extended, code[i], sign, radix, digits);
      SliceSnoc(code, start, i);
      digits := digits + [code[i]];
      i := i + 1;
    }
    RadixRunAt(code, start, i, radix);
    magnitude := if extended then doubleTemp else temp as nat;
  }

  /** Where the integer-branch loop stops is the end of the digit run. */
  lemma RadixRunAt(code: seq<CodeUnit>, start: nat, i: nat, radix: int)
    requires 2 <= radix <= 36 && start <= i <= |code|
    requires forall k | start <= k < i :: AcceptsDigit(code[k], radix)
    requires i == |code| || !AcceptsDigit(code[i], radix)
    ensures i == RunEnd(code, start, DigitOf(radix))
  {
    RunEndUnique(code, start, i, DigitOf(radix));
  }

  /** The auto-radix prefix (Tools.cs:421-444): a run of zeros is
      stepped over, then "0x"/"0X" selects radix 16 and a zero before a
      digit selects octal (or is refused under `RaiseIfOctal`). */
  method ScanAutoRadix(code: seq<CodeUnit>, start: nat, radix: int, options: Options) returns (r: Result<Prefix>)
    requires start <= |code| && ValidRadix(radix)
    ensures r == AutoRadix(code, start, radix, options)
  {
    var i, rdx, res, skipped := start, radix, false, false;
    if options.allowAutoRadix && i + 1 < |code| {
      while code[i] == Digit0 && i + 1 < |code| && code[i + 1] == Digit0
        invariant start <= i < |code|
        invariant ZeroRun(code, i) == ZeroRun(code, start)
        invariant skipped == (i > start)
        decreases |code| - i
      {
        skipped := true;
        i := i + 1;
      }
      if (rdx == 0 || rdx == 16) && code[i] == Digit0 {
        if i + 1 == |code| {
          return Err(IndexOutOfRange);   // code[i + 1] is read past the end
        }
        if code[i + 1] == 120 || code[i + 1] == 88 {   // 'x', 'X'
          i := i + 2;
          rdx := 16;
        } else if rdx == 0 && IsDigit(code[i + 1]) {
          if options.raiseIfOctal {
            return Err(SyntaxError);
          }
          i := i + 1;
          if options.processOctal {
            rdx := 8;
          }
          res := true;
        }
      }
    }
    return Ok(Prefix(i, rdx, res, skipped));
  }

  /** The exponent part (Tools.cs:494-513). */
  method ScanExponent(code: seq<CodeUnit>, start: nat, deg0: int) returns (r: Result<(nat, int)>)
    requires start <= |code| && -0x8000_0000 <= deg0 < 0x8000_0000
    ensures r == Exponent(code, start, deg0)
  {
    var i, deg := start, deg0;
    if i < |code| && (code[i] == 101 || code[i] == 69) {   // 'e', 'E'
      i := i + 1;
      if i >= |code| {
        return Err(IndexOutOfRange);   // code[i] is read past the end
      }
      var esign := 1;
      if 43 <= code[i] <= 45 {
        esign := SignOf(code[i]);
        i := i + 1;
      }
      var td;
      i, td := ScanExponentDigits(code, i);
      deg := Wrap32(deg + Wrap32(td as int * esign) as int) as int;
    }
    return Ok((i, deg));
  }

  /** The integer part and fraction of the decimal branch
      (Tools.cs:445-492). */
  method ScanMantissa(code: seq<CodeUnit>, p: Prefix) returns (i: nat, temp: UInt64, scount: nat, deg: int, res: bool)
    requires p.i <= |code|
    ensures (Mantissa(i, temp as int, scount, deg), res) == DecimalMantissa(code, p)
  {
    res := p.res;
    i, temp, scount, deg := ScanIntegerPart(code, p.i);
    ghost var ip := Mantissa(i, temp as int, scount, deg);
    if i > p.i {
      res := true;
    }
    if !res && (i >= |code| || code[i] != Dot) {
      DecimalMantissaNoDot(code, p, ip);
      return;   // the source returns false here; the caller's test below gives the same
    }
    if i < |code| && code[i] == Dot {
      i := i + 1;
      var fractionStart := i;
      i, temp, scount, deg := ScanFraction(code, fractionStart, temp, scount, deg, ip);
      if i > fractionStart {
        res := true;
      }
      DecimalMantissaDot(code, p, ip, fractionStart, Mantissa(i, temp as int, scount, deg));
    } else {
      DecimalMantissaNoDot(code, p, ip);
    }
  }

  /** `DecimalMantissa` when no '.' follows the integer part. */
  lemma DecimalMantissaNoDot(code: seq<CodeUnit>, p: Prefix, ip: Mantissa)
    requires p.i <= |code| && ip == IntegerPart(code, p.i) && !(ip.next < |code| && code[ip.next] == Dot)
    ensures DecimalMantissa(code, p) == (ip, p.res || ip.next > p.i)
  {
  }

  /** `DecimalMantissa` when a '.' follows the integer part. */
  lemma DecimalMantissaDot(code: seq<CodeUnit>, p: Prefix, ip: Mantissa, start: nat, m: Mantissa)
    requires p.i <= |code|
    requires ip == IntegerPart(code, p.i)
    requires ip.next < |code|
    requires code[ip.next] == Dot
    requires start == ip.next + 1 && m == FractionPart(code, start, ip)
    ensures DecimalMantissa(code, p) == (m, p.res || ip.next > p.i || m.next > start)
  {
  }

  /** The decimal branch (Tools.cs:445-563), up to the mantissa and scale
      it hands to the floating-point reconstruction. */
  method ScanDecimal(code: seq<CodeUnit>, index: nat, p: Prefix, sig: int) returns (r: Result<Scan>)
    requires index <= p.i <= |code| < 0x8000_0000
    ensures r == DecimalBranch(code, index, p, sig)
  {
    var i, temp, scount, deg, res := ScanMantissa(code, p);
    if !res {
      return Ok(Scan(false, NaN, index));
    }
    var exponent := ScanExponent(code, i, deg);
    if exponent.Err? {
      return Err(exponent.error);
    }
    i, deg := exponent.value.0, exponent.value.1;
    // The double itself is left to the rounding; what is kept are the two
    // exceptions of the reconstruction and the test after it.
    if deg >= 10 && temp as nat * 10_000_000_000 > DecimalMax {
      return Err(Overflow);
    }
    if temp == 0 && p.skipped && deg < ZeroTimesInfinity {
      return Err(SyntaxError);
    }
    return Ok(Scan(true, Decimal(sig, temp as nat, deg), i));
  }

  /** The integer branch (Tools.cs:564-606). */
  method ScanInteger(code: seq<CodeUnit>, index: nat, p: Prefix, sig: int) returns (r: Result<Scan>)
    requires index <= p.i <= |code| && ValidRadix(p.radix)
    ensures r == IntegerBranch(code, index, p, sig)
  {
    var radix := if p.radix == 0 then 10 else p.radix;
    var i, magnitude, extended := ScanRadixDigits(code, p.i, radix);
    var res := p.res;
    if i > p.i {
      res := true;
    }
    if !res {
      return Ok(Scan(false, NaN, index));
    }
    return Ok(Scan(true, Integer(sig, magnitude, extended), i));
  }

  /** `ParseNumber(code, ref index, out value, radix, options)`. The
      result carries the boolean it returns, the value it stores in
      `value` and the final `index`; `Err` is an exception it lets escape. */
  method ParseNumber(code: seq<CodeUnit>, index: nat, radix: int, options: Options) returns (r: Result<Scan>)
    requires index <= |code| < 0x8000_0000
    ensures r == ParseNumberSpec(code, index, radix, options)
  {
    if radix != 0 && (radix < 2 || radix > 36) {
      return Ok(Scan(false, NaN, index));
    }
    if |code| == 0 {
      return Ok(Scan(true, Zero, index));
    }
    var i := SkipBlank(code, index);
    if i == |code| {
      return Ok(Scan(true, Zero, index));
    }
    var isNaN := MatchWord(code, i, NaNWord);
    if isNaN {
      return Ok(Scan(true, NaN, i + 3));
    }
    ghost var blankEnd := i;
    var sig := 1;
    if code[i] == Minus || code[i] == Plus {
      sig := SignOf(code[i]);
      i := i + 1;
    }
    assert SignAt(code, blankEnd) == (sig, i);
    r := ScanSigned(code, index, i, sig, radix, options);
  }

  /** The rest of `ParseNumber` once the sign is read (Tools.cs:408-606). */
  method ScanSigned(code: seq<CodeUnit>, index: nat, i: nat, sig: int, radix: int, options: Options) returns (r: Result<Scan>)
    requires index <= i <= |code| < 0x8000_0000 && ValidRadix(radix)
    ensures r == SignedNumber(code, index, i, sig, radix, options)
  {
    var isInfinity := MatchWord(code, i, InfinityWord);
    if isInfinity {
      return Ok(Scan(true, Infinity(sig), i + 8));
    }
    var prefix := ScanAutoRadix(code, i, radix, options);
    if prefix.Err? {
      return Err(prefix.error);
    }
    var p := prefix.value;
    if options.allowFloat && p.radix == 0 {
      r := ScanDecimal(code, index, p, sig);
    } else {
      r := ScanInteger(code, index, p, sig);
    }
  }
}
