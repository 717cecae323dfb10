/** What `Tools.ParseNumber` (Core/Tools.cs:370-607) computes, stated as
    functions of the input text. The scanner itself, with its loops, is in
    module NumberScan and is proved to compute `ParseNumberSpec`.

    The decimal branch stops at the mantissa and the power-of-ten scale it
    has collected; turning them into an IEEE double (Tools.cs:514-557) is
    floating-point work and is not modelled. */
module NumberSpec {
  import opened Base
  import opened Chars

  /** `ParseNumberOptions` (Tools.cs:13-21) as its four flags. */
  datatype Options = Options(raiseIfOctal: bool, processOctal: bool, allowFloat: bool, allowAutoRadix: bool)

  /** `ParseNumberOptions.Default` = ProcessOctal | AllowFloat | AllowAutoRadix. */
  const Default: Options := Options(false, true, true, true)

  /** AllowFloat | AllowAutoRadix, the options `JSObjectToDouble` uses. */
  const FloatAutoRadix: Options := Options(false, false, true, true)

  /** The double a scan produces, before IEEE rounding.
      `Decimal(sign, mantissa, scale)` stands for sign * mantissa * 10^scale;
      `Integer(sign, magnitude, extended)` for sign * magnitude, where
      `extended` records that the accumulator went over to a double and so
      may have rounded. */
  datatype Number =
    | NaN
    | Infinity(sign: int)
    | Zero
    | Decimal(sign: int, mantissa: nat, scale: int)
    | Integer(sign: int, magnitude: nat, extended: bool)

  /** What `ParseNumber` hands back: its boolean result, the `out value`
      and the `ref index`. */
  datatype Scan = Scan(ok: bool, value: Number, index: nat)

  predicate ValidRadix(radix: int) {
    radix == 0 || 2 <= radix <= 36
  }

  /** White space the scanner skips before a number: line terminators are
      white space to .NET but are not skipped. */
  predicate IsBlank(c: CodeUnit) {
    IsWhiteSpace(c) && !IsLineTerminator(c)
  }

  /** "NaN" and "Infinity" as code units. */
  const NaNWord: seq<CodeUnit> := [78, 97, 78]
  const InfinityWord: seq<CodeUnit> := [73, 110, 102, 105, 110, 105, 116, 121]

  predicate WordAt(code: seq<CodeUnit>, i: nat, word: seq<CodeUnit>) {
    i + |word| <= |code| && code[i..i + |word|] == word
  }

  /** The digit test of the integer branch for a given radix. */
  function DigitOf(radix: int): CodeUnit -> bool
    requires 2 <= radix <= 36
  {
    c => AcceptsDigit(c, radix)
  }

  /** The threshold at which the integer accumulator switches to a double:
      `(temp & 0xFE00000000000000) != 0` on a `ulong` means temp >= 2^57. */
  const ExtendedThreshold: nat := 0x200_0000_0000_0000

  /** Sign multiplier `44 - c` for '+' (43) and '-' (45). */
  function SignOf(c: CodeUnit): int {
    44 - c as int
  }

  /** How a scan that returns leaves `index`: a failed scan reports NaN
      and leaves it where it was; a successful one moves it forward, never
      past the end of the text. */
  predicate Settles(r: Result<Scan>, index: nat, n: nat) {
    r.Ok? ==> if r.value.ok then index <= r.value.index <= n else r.value == Scan(false, NaN, index)
  }

  //-------------------------------------------------------------------------
  // Auto-radix prefix (Tools.cs:421-444)
  //-------------------------------------------------------------------------

  /** The loop at Tools.cs:425-429: it steps over a '0' as long as the next
      code unit is also a '0'. It stops on the last zero of the run. */
  function ZeroRun(code: seq<CodeUnit>, i: nat): (j: nat)
    requires i < |code|
    ensures i <= j < |code|
    ensures forall k | i <= k < j :: code[k] == Digit0
    ensures j > i ==> code[j] == Digit0
    ensures !(code[j] == Digit0 && j + 1 < |code| && code[j + 1] == Digit0)
    decreases |code| - i
  {
    if code[i] == Digit0 && i + 1 < |code| && code[i + 1] == Digit0 then ZeroRun(code, i + 1) else i
  }

  /** Cursor, radix and flags after the auto-radix prefix. `res` is the
      source's "a digit was seen" flag, `skipped` its `skiped`. */
  datatype Prefix = Prefix(i: nat, radix: int, res: bool, skipped: bool)

  function AutoRadix(code: seq<CodeUnit>, i: nat, radix: int, options: Options): (r: Result<Prefix>)
    requires i <= |code| && ValidRadix(radix)
    ensures r.Ok? ==> i <= r.value.i <= |code| && ValidRadix(r.value.radix)
  {
    if options.allowAutoRadix && i + 1 < |code| then
      var j := ZeroRun(code, i);
      var skipped := j > i;
      if (radix == 0 || radix == 16) && code[j] == Digit0 then
        if j + 1 == |code| then Err(IndexOutOfRange)   // code[i + 1] read past the end
        else if code[j + 1] == 120 || code[j + 1] == 88 then Ok(Prefix(j + 2, 16, false, skipped))  // 'x', 'X'
        else if radix == 0 && IsDigit(code[j + 1]) then
          if options.raiseIfOctal then Err(SyntaxError)
          else Ok(Prefix(j + 1, if options.processOctal then 8 else 0, true, skipped))
        else Ok(Prefix(j, radix, false, skipped))
      else Ok(Prefix(j, radix, false, skipped))
    else Ok(Prefix(i, radix, false, false))
  }

  //-------------------------------------------------------------------------
  // Decimal branch (Tools.cs:445-563)
  //-------------------------------------------------------------------------

  /** The scanner's decimal state: cursor, accumulator `temp`, the count of
      stored digits `scount` and the power-of-ten adjustment `deg`. */
  datatype Mantissa = Mantissa(next: nat, temp: nat, scount: nat, deg: int)

  function Min(a: int, b: int): int {
    if a <= b then a else b
  }

  /** The accumulator after the decimal digits `s` are fed, one at a time,
      into an accumulator holding `t`: `t * 10 + (c - '0')` per digit. */
  function Accumulate(t: nat, s: seq<CodeUnit>): nat
    requires DecimalRun(s)
  {
    if s == [] then t else Accumulate(t, s[..|s| - 1]) * 10 + (s[|s| - 1] as int - 48)
  }

  /** Feeding digits into `t` shifts `t` past them. */
  lemma {:induction false} AccumulateShifts(t: nat, s: seq<CodeUnit>)
    requires DecimalRun(s)
    ensures AllDigits(s, 10)
    ensures Accumulate(t, s) == t * Pow(10, |s|) + Value(s, 10)
  {
    DecimalDigits(s);
    if s != [] {
      var init := s[..|s| - 1];
      AccumulateShifts(t, init);
      Distribute(t, Pow(10, |init|), Value(init, 10), 10, s[|s| - 1] as int - 48);
      assert Pow(10, |s|) == Pow(10, |init|) * 10;
    }
  }

  /** Fed into an empty accumulator, digits give their decimal value. */
  lemma {:induction false} AccumulateValue(s: seq<CodeUnit>)
    requires DecimalRun(s)
    ensures AllDigits(s, 10)
    ensures Accumulate(0, s) == Value(s, 10)
  {
    DecimalDigits(s);
    if s != [] {
      AccumulateValue(s[..|s| - 1]);
    }
  }

  /** An accumulator that starts with fewer than `n` digits holds fewer
      than `n + |s|` once `s` is fed in. */
  lemma AccumulateBound(t: nat, n: nat, s: seq<CodeUnit>)
    requires DecimalRun(s) && t < Pow(10, n)
    ensures Accumulate(t, s) < Pow(10, n + |s|)
  {
    AccumulateShifts(t, s);
    ValueBound(s, 10);
    ShiftInto(t, n, Value(s, 10), |s|);
  }

  /** The integer part: the first 19 digits go into `temp`, each further
      digit adds one to `deg`. */
  function IntegerPart(code: seq<CodeUnit>, i: nat): (m: Mantissa)
    requires i <= |code|
    ensures i <= m.next <= |code| && m.scount <= 19 && 0 <= m.deg <= |code|
    ensures m.temp < Pow(10, m.scount)
  {
    var e := RunEnd(code, i, IsDigit);
    var s := Min(e - i, 19);
    DecimalDigits(code[i..i + s]);
    ValueBound(code[i..i + s], 10);
    Mantissa(e, Value(code[i..i + s], 10), s, e - i - s)
  }

  /** The fraction after '.': digits are stored while fewer than 19 are
      held, each stored one taking one from `deg`; the rest are dropped. */
  function FractionPart(code: seq<CodeUnit>, i: nat, m: Mantissa): (r: Mantissa)
    requires i <= |code| && m.scount <= 19
    ensures i <= r.next <= |code| && m.scount <= r.scount <= 19
    ensures m.deg - (r.next - i) <= r.deg <= m.deg
  {
    var e := RunEnd(code, i, IsDigit);
    var s := Min(e - i, 19 - m.scount);
    var digits := code[i..i + s];
    assert DecimalRun(digits);
    Mantissa(e, Accumulate(m.temp, digits), m.scount + s, m.deg - s)
  }

  /** a < 10^x and b < 10^y give a * 10^y + b < 10^(x+y). */
  lemma ShiftInto(a: nat, x: nat, b: nat, y: nat)
    requires a < Pow(10, x) && b < Pow(10, y)
    ensures a * Pow(10, y) + b < Pow(10, x + y)
  {
    PowAdd(10, x, y);
    var gap: nat := Pow(10, x) - (a + 1);
    calc {
      a * Pow(10, y) + b;
    <
      a * Pow(10, y) + Pow(10, y);
    ==
      (a + 1) * Pow(10, y);
    <=
      (a + 1) * Pow(10, y) + gap * Pow(10, y);
    ==
      Pow(10, x) * Pow(10, y);
    }
  }

  /** The exponent (Tools.cs:494-513). The cursor must not stop right after
      the 'e': the source then reads `code[i]` past the end. A '+', ',' or
      '-' after the 'e' is consumed with sign `44 - c` (so ',' gives 0).
      `scount` is never incremented in the source's exponent loop, so its
      seven-digit cap never applies: every digit goes into `td`, an `int`
      that wraps. */
  function Exponent(code: seq<CodeUnit>, i: nat, deg: int): (r: Result<(nat, int)>)
    requires i <= |code| && -0x8000_0000 <= deg < 0x8000_0000
    ensures r.Ok? ==> i <= r.value.0 <= |code| && -0x8000_0000 <= r.value.1 < 0x8000_0000
    ensures r.Ok? && r.value.0 == i ==> r.value.1 == deg
  {
    if i < |code| && (code[i] == 101 || code[i] == 69) then   // 'e', 'E'
      if i + 1 >= |code| then Err(IndexOutOfRange)
      else
        var c := code[i + 1];
        var signed := 43 <= c <= 45;
        var esign := if signed then SignOf(c) else 1;
        var start := if signed then i + 2 else i + 1;
        var e := RunEnd(code, start, IsDigit);
        DecimalDigits(code[start..e]);
        var td := Wrap32(Value(code[start..e], 10));
        Ok((e, Wrap32(deg + Wrap32(td as int * esign) as int) as int))
    else Ok((i, deg))
  }

  /** The digits of the decimal branch: the integer part and, after a
      '.', the fraction; with whether any digit was seen (or the prefix
      already counted one). */
  function DecimalMantissa(code: seq<CodeUnit>, p: Prefix): (r: (Mantissa, bool))
    requires p.i <= |code|
    ensures p.i <= r.0.next <= |code| && -|code| <= r.0.deg <= |code|
  {
    var ip := IntegerPart(code, p.i);
    var res := p.res || ip.next > p.i;
    var hasDot := ip.next < |code| && code[ip.next] == Dot;
    if hasDot then
      var m := FractionPart(code, ip.next + 1, ip);
      (m, res || m.next > ip.next + 1)
    else (ip, res)
  }

  /** `decimal.MaxValue`, 2^96 - 1. */
  const DecimalMax: nat := 79228162514264337593543950335

  /** The reconstruction at Tools.cs:514-557 multiplies `(decimal)temp` by
      10^10 when deg > 10 (line 533) and by `(decimal)Math.Pow(10, deg)`
      when 0 < deg <= 10 (line 538); `decimal` multiplication throws
      `OverflowException` above `decimal.MaxValue`. Below deg = 10 the
      product is under 10^28 and cannot overflow. */
  predicate DecimalOverflows(temp: nat, deg: int) {
    deg >= 10 && temp * 10_000_000_000 > DecimalMax
  }

  /** With a zero mantissa and deg >= 319 the reconstruction computes
      `0 * Math.Pow(10, deg - 10)` with the power infinite, which is NaN: the
      smallest such deg. */
  const ZeroTimesInfinity: int := 319

  /** The test `value == 0 && skiped` at Tools.cs:558 for a mantissa of
      zero: the value is 0 unless it became NaN. */
  predicate ZeroAfterSkip(temp: nat, deg: int, skipped: bool) {
    temp == 0 && skipped && deg < ZeroTimesInfinity
  }

  function DecimalBranch(code: seq<CodeUnit>, index: nat, p: Prefix, sig: int): (r: Result<Scan>)
    requires index <= p.i <= |code| < 0x8000_0000
    ensures Settles(r, index, |code|)
  {
    var (m, res) := DecimalMantissa(code, p);
    if !res then Ok(Scan(false, NaN, index))
    else
      match Exponent(code, m.next, m.deg)
      case Err(e) => Err(e)
      case Ok((next, deg)) =>
        if DecimalOverflows(m.temp, deg) then Err(Overflow)
        else if ZeroAfterSkip(m.temp, deg, p.skipped) then Err(SyntaxError)
        else Ok(Scan(true, Decimal(sig, m.temp, deg), next))
  }

  //-------------------------------------------------------------------------
  // Integer branch (Tools.cs:564-606)
  //-------------------------------------------------------------------------

  function IntegerBranch(code: seq<CodeUnit>, index: nat, p: Prefix, sig: int): (r: Result<Scan>)
    requires index <= p.i <= |code| && ValidRadix(p.radix)
    ensures Settles(r, index, |code|)
  {
    var radix := if p.radix == 0 then 10 else p.radix;
    var e := RunEnd(code, p.i, DigitOf(radix));
    if e == p.i && !p.res then Ok(Scan(false, NaN, index))
    else
      forall k | p.i <= k < e ensures IsAlnum(code[k]) && DigitValue(code[k]) < radix {
        AcceptsDigitIff(code[k], radix);
      }
      var n := Value(code[p.i..e], radix);
      Ok(Scan(true, Integer(sig, n, n >= ExtendedThreshold), e))
  }

  //-------------------------------------------------------------------------
  // The whole scan
  //-------------------------------------------------------------------------

  /** The sign and the cursor after an optional '+' or '-' at `i`. */
  function SignAt(code: seq<CodeUnit>, i: nat): (r: (int, nat))
    requires i < |code|
    ensures r.0 == 1 || r.0 == -1
    ensures r.1 == i || r.1 == i + 1
  {
    if code[i] == Minus || code[i] == Plus then (SignOf(code[i]), i + 1) else (1, i)
  }

  /** .NET strings are shorter than 2^31 code units: the bound keeps the
      source's `int` cursor and `deg` from wrapping. */
  function ParseNumberSpec(code: seq<CodeUnit>, index: nat, radix: int, options: Options): (r: Result<Scan>)
    requires index <= |code| < 0x8000_0000
    ensures Settles(r, index, |code|)
  {
    if !ValidRadix(radix) then Ok(Scan(false, NaN, index))
    else if |code| == 0 then Ok(Scan(true, Zero, index))
    else
      var i := RunEnd(code, index, IsBlank);
      if i == |code| then Ok(Scan(true, Zero, index))
      else if WordAt(code, i, NaNWord) then Ok(Scan(true, NaN, i + 3))
      else
        var signed := SignAt(code, i);
        SignedNumber(code, index, signed.1, signed.0, radix, options)
  }

  /** The scan after the optional sign: "Infinity", or the auto-radix
      prefix and one of the two digit branches. */
  function SignedNumber(code: seq<CodeUnit>, index: nat, i: nat, sig: int, radix: int, options: Options): (r: Result<Scan>)
    requires index <= i <= |code| < 0x8000_0000 && ValidRadix(radix)
    ensures Settles(r, index, |code|)
  {
    if WordAt(code, i, InfinityWord) then Ok(Scan(true, Infinity(sig), i + 8))
    else
      match AutoRadix(code, i, radix, options)
      case Err(e) => Err(e)
      case Ok(p) =>
        if options.allowFloat && p.radix == 0 then DecimalBranch(code, index, p, sig)
        else IntegerBranch(code, index, p, sig)
  }
}
