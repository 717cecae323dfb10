/** The conversions of a script value to a .NET number (Core/Tools.cs:35-295):
    `JSObjectToDouble`, `JSObjectToInt32`, `JSObjectToInt64` and
    `JSObjectToNumber`. Each is a switch on the value's type tag; a string is
    trimmed and read with `ParseNumber`, and an object is first turned into
    a primitive value by the object itself. */
module Coercion {
  import opened Base
  import opened Chars
  import NumberSpec
  import NumberProps

  //-------------------------------------------------------------------------
  // Values
  //-------------------------------------------------------------------------

  /** An IEEE double as the conversions see it: NaN, an infinity, or a
      finite value. Which reals a double can hold is not modelled. */
  datatype Float = NaN | Infinity(positive: bool) | Finite(value: real)

  /** A .NET string: fewer than 2^31 code units. */
  type NetString = s: seq<CodeUnit> | |s| < 0x8000_0000

  /** The object an Object, Function or Date value refers to. */
  datatype ObjectRef = ObjectRef(id: nat)

  /** A `JSObject`, by its `valueType` tag, with the slot that tag reads:
      `iValue` for Bool and Int, `dValue` for Double, `oValue` for the
      others (`None` for a null `oValue`). `OtherType` stands for every
      other member of `JSObjectType`, which is not part of this model. */
  datatype JSObject =
    | Undefined
    | NotExists
    | NotExistsInObject
    | Bool(iValue: Int32)
    | Int(iValue: Int32)
    | Double(dValue: Float)
    | String(text: NetString)
    | Date(oValue: Option<ObjectRef>)
    | Function(oValue: Option<ObjectRef>)
    | Object(oValue: Option<ObjectRef>)
    | OtherType

  predicate IsObjectLike(v: JSObject) {
    v.Date? || v.Function? || v.Object?
  }

  /** `ToPrimitiveValue_Value_String`, which belongs to the object and is
      not part of this model: a primitive value, or an exception. */
  type ToPrimitive = JSObject -> Result<JSObject>

  /** What the conversions rely on: the primitive value of an object is not
      an object again. */
  ghost predicate Primitive(toPrimitive: ToPrimitive) {
    forall v :: IsObjectLike(v) && toPrimitive(v).Ok? ==> !IsObjectLike(toPrimitive(v).value)
  }

  /** Turning the scanned digits and scale of `ParseNumber` into a double
      (Tools.cs:514-557), and converting an integer to a double
      (Tools.cs:602), is floating-point rounding, not part of this model. */
  type Rounding = NumberSpec.Number -> Float

  /** A double holds every integer below 2^53 exactly; the `ulong` to
      `double` conversion at Tools.cs:602 rounds larger ones. */
  const DoubleExact: nat := 0x20_0000_0000_0000

  /** The double `ParseNumber` stores for a scanned number. NaN, the
      infinities, zero, an integer below 2^53 and a zero mantissa are
      exact; a zero mantissa is NaN from `ZeroTimesInfinity` on, where the
      reconstruction multiplies 0 by an infinite power of ten. */
  function ValueOf(n: NumberSpec.Number, round: Rounding): (r: Float)
    ensures n.Integer? && !n.extended && n.magnitude < DoubleExact ==> r == Finite((n.sign * n.magnitude) as real)
    ensures n.Decimal? && n.mantissa == 0 ==> (r == NaN <==> n.scale >= NumberSpec.ZeroTimesInfinity)
    ensures n.Decimal? && n.mantissa == 0 && r != NaN ==> r == Finite(0.0)
    ensures r.Infinity? && !n.Infinity? ==> r == round(n)
  {
    match n
    case NaN => NaN
    case Infinity(sign) => Infinity(sign > 0)
    case Zero => Finite(0.0)
    case Integer(sign, magnitude, extended) =>
      if extended || magnitude >= DoubleExact then round(n) else Finite((sign * magnitude) as real)
    case Decimal(_, mantissa, scale) =>
      if mantissa == 0 then (if scale >= NumberSpec.ZeroTimesInfinity then NaN else Finite(0.0))
      else round(n)
  }

  /** The depth of the recursion through `ToPrimitive`. */
  function Rank(arg: Option<JSObject>): nat {
    if arg.Some? && IsObjectLike(arg.value) then 1 else 0
  }

  //-------------------------------------------------------------------------
  // .NET helpers
  //-------------------------------------------------------------------------

  /** `String.Trim()`: the text without its leading and trailing white
      space. */
  function Trim(s: NetString): (t: NetString)
    ensures t == [] || (!IsWhiteSpace(t[0]) && !IsWhiteSpace(t[|t| - 1]))
  {
    var a := RunEnd(s, 0, IsWhiteSpace);
    var b := TrimEnd(s, a, |s|);
    s[a..b]
  }

  /** What `Trim` drops is white space at the two ends. */
  lemma TrimDropsWhiteSpace(s: NetString)
    ensures exists a, b | 0 <= a <= b <= |s| ::
              Trim(s) == s[a..b] && (forall k | 0 <= k < a :: IsWhiteSpace(s[k])) && (forall k | b <= k < |s| :: IsWhiteSpace(s[k]))
  {
    var a := RunEnd(s, 0, IsWhiteSpace);
    var b := TrimEnd(s, a, |s|);
    assert Trim(s) == s[a..b];
  }

  /** Where the text ends once trailing white space after `a` is dropped. */
  function TrimEnd(s: seq<CodeUnit>, a: nat, b: nat): (e: nat)
    requires a <= b <= |s|
    ensures a <= e <= b && (forall k | e <= k < b :: IsWhiteSpace(s[k]))
    ensures e == a || !IsWhiteSpace(s[e - 1])
    decreases b
  {
    if b == a || !IsWhiteSpace(s[b - 1]) then b else TrimEnd(s, a, b - 1)
  }

  /** Rounding toward zero. */
  function Truncate(x: real): (t: int)
    ensures 0.0 <= x ==> 0 <= t && t as real <= x < t as real + 1.0
    ensures x < 0.0 ==> t <= 0 && t as real - 1.0 < x <= t as real
  {
    if x >= 0.0 then x.Floor else -((-x).Floor)
  }

  /** C#'s unchecked `(long)d` for a finite double. In range it rounds
      toward zero; out of range C# leaves the result unspecified, and the
      x86/x64 conversion instruction gives `long.MinValue`, as here. */
  function ToLong(x: real): Int64 {
    var t := Truncate(x);
    if Int64Min as int <= t <= Int64Max as int then t as Int64 else Int64Min
  }

  /** C#'s unchecked `(int)d`, with the same convention: NaN, the
      infinities and values out of range give `int.MinValue`. */
  function DoubleToInt(d: Float): (r: Int32)
    ensures r != Int32Min ==> d.Finite? && r as int == Truncate(d.value)
    ensures d.Finite? && Int32Min as int <= Truncate(d.value) <= Int32Max as int ==> r as int == Truncate(d.value)
  {
    match d
    case Finite(x) =>
      var t := Truncate(x);
      if Int32Min as int <= t <= Int32Max as int then t as Int32 else Int32Min
    case _ => Int32Min
  }

  /** C#'s unchecked `(long)d` for any double. */
  function DoubleToLong(d: Float): (r: Int64)
    ensures r != Int64Min ==> d.Finite? && r as int == Truncate(d.value)
    ensures d.Finite? && Int64Min as int <= Truncate(d.value) <= Int64Max as int ==> r as int == Truncate(d.value)
  {
    match d
    case Finite(x) => ToLong(x)
    case _ => Int64Min
  }

  /** `Tools.ParseNumber(s, ref ix, out x, 0, options)` on the trimmed text
      from 0: whether it succeeded, whether it read the whole text, and the
      double it stored. */
  datatype Parsed = Parsed(ok: bool, whole: bool, x: Float)

  function ParseTrimmed(s: NetString, options: NumberSpec.Options, round: Rounding): (r: Result<Parsed>)
    ensures r.Ok? && !r.value.ok ==> r.value.x == NaN
  {
    var t := Trim(s);
    match NumberSpec.ParseNumberSpec(t, 0, 0, options)
    case Err(e) => Err(e)
    case Ok(scan) => Ok(Parsed(scan.ok, scan.index == |t|, ValueOf(scan.value, round)))
  }

  //-------------------------------------------------------------------------
  // The conversions
  //-------------------------------------------------------------------------

  /** `JSObjectToDouble(arg)`, `None` standing for a null `arg`. */
  function ToDouble(arg: Option<JSObject>, toPrimitive: ToPrimitive, round: Rounding): (r: Result<Float>)
    requires Primitive(toPrimitive)
    ensures r.Err? ==> arg.Some? && (arg.value.String? || IsObjectLike(arg.value) || arg.value.NotExists? || arg.value.OtherType?)
    ensures arg.Some? && arg.value.String? ==> (r.Err? <==> ParseTrimmed(arg.value.text, NumberSpec.FloatAutoRadix, round).Err?)
    decreases Rank(arg), 1
  {
    match arg
    case None => Ok(NaN)
    case Some(v) =>
      match v
      case Bool(i) => Ok(Finite(i as real))
      case Int(i) => Ok(Finite(i as real))
      case Double(d) => Ok(d)
      case String(s) =>
        (match ParseTrimmed(s, NumberSpec.FloatAutoRadix, round)
         case Err(e) => Err(e)
         case Ok(p) => if p.ok && !p.whole then Ok(NaN) else Ok(p.x))
      case Date(o) => ObjectToDouble(v, toPrimitive, round)
      case Function(o) => ObjectToDouble(v, toPrimitive, round)
      case Object(o) => ObjectToDouble(v, toPrimitive, round)
      case Undefined => Ok(NaN)
      case NotExistsInObject => Ok(NaN)
      case NotExists => Err(ReferenceError)
      case OtherType => Err(NotImplemented)
  }

  function ObjectToDouble(v: JSObject, toPrimitive: ToPrimitive, round: Rounding): (r: Result<Float>)
    requires Primitive(toPrimitive) && IsObjectLike(v)
    ensures v.oValue.None? ==> r == Ok(Finite(0.0))
    ensures r.Err? ==> v.oValue.Some?
    decreases Rank(Some(v)), 0
  {
    if v.oValue.None? then Ok(Finite(0.0))
    else
      match toPrimitive(v)
      case Err(e) => Err(e)
      case Ok(p) => ToDouble(Some(p), toPrimitive, round)
  }

  /** The double held by a finite `Float` truncated as
      `(int)((long)d & 0xFFFFFFFF)`: its low 32 bits. */
  function DoubleToInt32Bits(d: Float, alternateInfinity: bool): Int32 {
    match d
    case NaN => 0
    case Infinity(positive) => if alternateInfinity then (if positive then Int32Max else Int32Min) else 0
    case Finite(x) => Wrap32(ToLong(x) as int)
  }

  /** `JSObjectToInt32(arg, nullOrUndef, alternateInfinity)`. */
  function ToInt32(arg: Option<JSObject>, nullOrUndef: Int32, alternateInfinity: bool,
                   toPrimitive: ToPrimitive, round: Rounding): (r: Result<Int32>)
    requires Primitive(toPrimitive)
    ensures r.Err? ==> arg.Some? && (arg.value.String? || IsObjectLike(arg.value) || arg.value.NotExists? || arg.value.OtherType?)
    ensures arg.Some? && arg.value.String? ==> (r.Err? <==> ParseTrimmed(arg.value.text, NumberSpec.Default, round).Err?)
    decreases Rank(arg), 1
  {
    match arg
    case None => Ok(nullOrUndef)
    case Some(v) =>
      match v
      case Bool(i) => Ok(i)
      case Int(i) => Ok(i)
      case Double(d) => Ok(DoubleToInt32Bits(d, alternateInfinity))
      case String(s) =>
        (match ParseTrimmed(s, NumberSpec.Default, round)
         case Err(e) => Err(e)
         case Ok(p) => if !p.ok || !p.whole then Ok(0) else Ok(DoubleToInt(p.x)))
      case Date(o) => ObjectToInt32(v, nullOrUndef, toPrimitive, round)
      case Function(o) => ObjectToInt32(v, nullOrUndef, toPrimitive, round)
      case Object(o) => ObjectToInt32(v, nullOrUndef, toPrimitive, round)
      case Undefined => Ok(nullOrUndef)
      case NotExistsInObject => Ok(nullOrUndef)
      case NotExists => Err(ReferenceError)
      case OtherType => Err(NotImplemented)
  }

  /** Tools.cs:156-163: the primitive value is converted by
      `JSObjectToInt32(r)`, that is with `nullOrUndef` 0 and no
      `alternateInfinity`. */
  function ObjectToInt32(v: JSObject, nullOrUndef: Int32, toPrimitive: ToPrimitive, round: Rounding): (r: Result<Int32>)
    requires Primitive(toPrimitive) && IsObjectLike(v)
    ensures v.oValue.None? ==> r == Ok(nullOrUndef)
    ensures r.Err? ==> v.oValue.Some?
    decreases Rank(Some(v)), 0
  {
    if v.oValue.None? then Ok(nullOrUndef)
    else
      match toPrimitive(v)
      case Err(e) => Err(e)
      case Ok(p) => ToInt32(Some(p), 0, false, toPrimitive, round)
  }

  /** `JSObjectToInt64(arg, nullOrUndef, alternateInfinity)`. */
  function ToInt64(arg: Option<JSObject>, nullOrUndef: Int64, alternateInfinity: bool,
                   toPrimitive: ToPrimitive, round: Rounding): (r: Result<Int64>)
    requires Primitive(toPrimitive)
    ensures r.Err? ==> arg.Some? && (arg.value.String? || IsObjectLike(arg.value) || arg.value.OtherType?)
    ensures arg.Some? && arg.value.String? ==> (r.Err? <==> ParseTrimmed(arg.value.text, NumberSpec.Default, round).Err?)
  {
    match arg
    case None => Ok(nullOrUndef)
    case Some(v) =>
      match v
      case Bool(i) => Ok(i as Int64)
      case Int(i) => Ok(i as Int64)
      case Double(d) =>
        Ok(match d
           case NaN => 0
           case Infinity(positive) => (if alternateInfinity then (if positive then Int64Max else Int64Min) else 0)
           case Finite(x) => ToLong(x))
      case String(s) =>
        (match ParseTrimmed(s, NumberSpec.Default, round)
         case Err(e) => Err(e)
         case Ok(p) => if !p.ok || !p.whole then Ok(0) else Ok(DoubleToLong(p.x)))
      case Date(o) => ObjectToInt64(v, nullOrUndef, toPrimitive, round)
      case Function(o) => ObjectToInt64(v, nullOrUndef, toPrimitive, round)
      case Object(o) => ObjectToInt64(v, nullOrUndef, toPrimitive, round)
      case NotExists => Ok(nullOrUndef)
      case Undefined => Ok(nullOrUndef)
      case NotExistsInObject => Ok(nullOrUndef)
      case OtherType => Err(NotImplemented)
  }

  /** Tools.cs:239-246: the primitive value goes to `JSObjectToInt32(r)`,
      and its `int` is widened. */
  function ObjectToInt64(v: JSObject, nullOrUndef: Int64, toPrimitive: ToPrimitive, round: Rounding): (r: Result<Int64>)
    requires Primitive(toPrimitive) && IsObjectLike(v)
    ensures v.oValue.None? ==> r == Ok(nullOrUndef)
    ensures v.oValue.Some? && r.Ok? ==> Int32Min as int <= r.value as int <= Int32Max as int
  {
    if v.oValue.None? then Ok(nullOrUndef)
    else
      match toPrimitive(v)
      case Err(e) => Err(e)
      case Ok(p) =>
        match ToInt32(Some(p), 0, false, toPrimitive, round)
        case Err(e) => Err(e)
        case Ok(i) => Ok(i as Int64)
  }

  /** `JSObjectToNumber(arg)`. The C# `int` 0 and `double` x it returns
      become Int and Double values. */
  function ToNumber(arg: Option<JSObject>, toPrimitive: ToPrimitive, round: Rounding): (r: Result<JSObject>)
    requires Primitive(toPrimitive)
    ensures r.Err? ==> arg.Some? && (arg.value.String? || IsObjectLike(arg.value) || arg.value.NotExists? || arg.value.OtherType?)
    ensures arg.Some? && arg.value.String? ==> (r.Err? <==> ParseTrimmed(arg.value.text, NumberSpec.Default, round).Err?)
    decreases Rank(arg), 1
  {
    match arg
    case None => Ok(Int(0))
    case Some(v) =>
      match v
      case Bool(_) => Ok(v)
      case Int(_) => Ok(v)
      case Double(_) => Ok(v)
      case String(s) =>
        (match ParseTrimmed(s, NumberSpec.Default, round)
         case Err(e) => Err(e)
         case Ok(p) => if !p.ok || !p.whole then Ok(Double(NaN)) else Ok(Double(p.x)))
      case Date(o) => ObjectToNumber(v, toPrimitive, round)
      case Function(o) => ObjectToNumber(v, toPrimitive, round)
      case Object(o) => ObjectToNumber(v, toPrimitive, round)
      case Undefined => Ok(Int(0))
      case NotExistsInObject => Ok(Int(0))
      case NotExists => Err(ReferenceError)
      case OtherType => Err(NotImplemented)
  }

  function ObjectToNumber(v: JSObject, toPrimitive: ToPrimitive, round: Rounding): (r: Result<JSObject>)
    requires Primitive(toPrimitive) && IsObjectLike(v)
    ensures v.oValue.None? ==> r == Ok(Int(0))
    ensures r.Err? ==> v.oValue.Some?
    decreases Rank(Some(v)), 0
  {
    if v.oValue.None? then Ok(Int(0))
    else
      match toPrimitive(v)
      case Err(e) => Err(e)
      case Ok(p) => ToNumber(Some(p), toPrimitive, round)
  }

  //-------------------------------------------------------------------------
  // Trim
  //-------------------------------------------------------------------------

  lemma {:induction false} TrimEndUnique(s: seq<CodeUnit>, a: nat, b: nat, e: nat)
    requires a <= e <= b <= |s|
    requires forall k | e <= k < b :: IsWhiteSpace(s[k])
    requires e == a || !IsWhiteSpace(s[e - 1])
    ensures TrimEnd(s, a, b) == e
    decreases b
  {
    if e < b {
      TrimEndUnique(s, a, b - 1, e);
    }
  }

  /** `Trim` keeps exactly the slice with white space on both sides of it
      and none at its two ends. */
  lemma TrimIsTheSlice(s: NetString, a: nat, b: nat)
    requires a <= b <= |s|
    requires forall k | 0 <= k < a :: IsWhiteSpace(s[k])
    requires forall k | b <= k < |s| :: IsWhiteSpace(s[k])
    requires a < b ==> !IsWhiteSpace(s[a]) && !IsWhiteSpace(s[b - 1])
    ensures Trim(s) == s[a..b]
  {
    if a < b {
      RunEndUnique(s, 0, a, IsWhiteSpace);
      TrimEndUnique(s, a, |s|, b);
    } else {
      RunEndUnique(s, 0, |s|, IsWhiteSpace);
      TrimEndUnique(s, |s|, |s|, |s|);
    }
  }

  /** White space around a text does not change its trimmed form. */
  lemma TrimPadded(w1: seq<CodeUnit>, s: NetString, w2: seq<CodeUnit>)
    requires |w1 + s + w2| < 0x8000_0000
    requires forall k | 0 <= k < |w1| :: IsWhiteSpace(w1[k])
    requires forall k | 0 <= k < |w2| :: IsWhiteSpace(w2[k])
    ensures Trim(w1 + s + w2) == Trim(s)
  {
    var p: NetString := w1 + s + w2;
    var a := RunEnd(s, 0, IsWhiteSpace);
    var b := TrimEnd(s, a, |s|);
    assert Trim(s) == s[a..b];
    TrimOfPadded(p, w1, s, w2, a, b);
  }

  lemma TrimOfPadded(p: NetString, w1: seq<CodeUnit>, s: seq<CodeUnit>, w2: seq<CodeUnit>, a: nat, b: nat)
    requires p == w1 + s + w2 && a <= b <= |s|
    requires forall k | 0 <= k < |w1| :: IsWhiteSpace(w1[k])
    requires forall k | 0 <= k < |w2| :: IsWhiteSpace(w2[k])
    requires forall k | 0 <= k < a :: IsWhiteSpace(s[k])
    requires forall k | b <= k < |s| :: IsWhiteSpace(s[k])
    requires a < b ==> !IsWhiteSpace(s[a]) && !IsWhiteSpace(s[b - 1])
    ensures Trim(p) == s[a..b]
  {
    PaddingFrame(p, w1, s, w2, a, b);
    TrimIsTheSlice(p, |w1| + a, |w1| + b);
    SliceOfMiddle(p, w1, s, w2, a, b);
  }

  lemma PaddingFrame(p: seq<CodeUnit>, w1: seq<CodeUnit>, s: seq<CodeUnit>, w2: seq<CodeUnit>, a: nat, b: nat)
    requires p == w1 + s + w2 && a <= b <= |s|
    requires forall k | 0 <= k < |w1| :: IsWhiteSpace(w1[k])
    requires forall k | 0 <= k < |w2| :: IsWhiteSpace(w2[k])
    requires forall k | 0 <= k < a :: IsWhiteSpace(s[k])
    requires forall k | b <= k < |s| :: IsWhiteSpace(s[k])
    requires a < b ==> !IsWhiteSpace(s[a]) && !IsWhiteSpace(s[b - 1])
    ensures forall k | 0 <= k < |w1| + a :: IsWhiteSpace(p[k])
    ensures forall k | |w1| + b <= k < |p| :: IsWhiteSpace(p[k])
    ensures a < b ==> !IsWhiteSpace(p[|w1| + a]) && !IsWhiteSpace(p[|w1| + b - 1])
  {
    var o := |w1|;
    forall k | 0 <= k < o + a
      ensures IsWhiteSpace(p[k])
    {
      if k < o {
        assert p[k] == w1[k];
      } else {
        assert p[k] == s[k - o];
      }
    }
    forall k | o + b <= k < |p|
      ensures IsWhiteSpace(p[k])
    {
      if k < o + |s| {
        assert p[k] == s[k - o];
      } else {
        assert p[k] == w2[k - o - |s|];
      }
    }
    if a < b {
      assert p[o + a] == s[a] && p[o + b - 1] == s[b - 1];
    }
  }

  lemma SliceOfMiddle<T>(p: seq<T>, x: seq<T>, s: seq<T>, y: seq<T>, a: nat, b: nat)
    requires p == x + s + y && a <= b <= |s|
    ensures p[|x| + a..|x| + b] == s[a..b]
  {
    assert forall k | 0 <= k < b - a :: p[|x| + a..|x| + b][k] == s[a..b][k];
  }

  //-------------------------------------------------------------------------
  // Properties of the conversions
  //-------------------------------------------------------------------------

  /** The values `JSObjectToInt32` replaces by `nullOrUndef`: a null
      reference, Undefined, a missing property, and an object with a null
      `oValue`. `JSObjectToInt64` adds an undefined variable. */
  predicate Absent(arg: Option<JSObject>) {
    arg.None? || arg.value.Undefined? || arg.value.NotExistsInObject? ||
    (IsObjectLike(arg.value) && arg.value.oValue.None?)
  }

  predicate Absent64(arg: Option<JSObject>) {
    Absent(arg) || arg.value.NotExists?
  }

  /** `nullOrUndef` is the result for an absent value and is used for
      nothing else: in particular an object's primitive value is converted
      with 0 in its place. */
  lemma Int32Default(arg: Option<JSObject>, n: Int32, m: Int32, alternateInfinity: bool,
                     toPrimitive: ToPrimitive, round: Rounding)
    requires Primitive(toPrimitive)
    ensures Absent(arg) ==> ToInt32(arg, n, alternateInfinity, toPrimitive, round) == Ok(n)
    ensures !Absent(arg) ==>
      ToInt32(arg, n, alternateInfinity, toPrimitive, round) == ToInt32(arg, m, alternateInfinity, toPrimitive, round)
  {
  }

  lemma Int64Default(arg: Option<JSObject>, n: Int64, m: Int64, alternateInfinity: bool,
                     toPrimitive: ToPrimitive, round: Rounding)
    requires Primitive(toPrimitive)
    ensures Absent64(arg) ==> ToInt64(arg, n, alternateInfinity, toPrimitive, round) == Ok(n)
    ensures !Absent64(arg) ==>
      ToInt64(arg, n, alternateInfinity, toPrimitive, round) == ToInt64(arg, m, alternateInfinity, toPrimitive, round)
  {
  }

  /** An undefined variable raises ReferenceError in `JSObjectToInt32`,
      `JSObjectToDouble` and `JSObjectToNumber`, but `JSObjectToInt64`
      returns `nullOrUndef` for it. */
  lemma UndefinedVariable(n: Int32, m: Int64, alternateInfinity: bool, toPrimitive: ToPrimitive, round: Rounding)
    requires Primitive(toPrimitive)
    ensures ToInt32(Some(NotExists), n, alternateInfinity, toPrimitive, round) == Err(ReferenceError)
    ensures ToDouble(Some(NotExists), toPrimitive, round) == Err(ReferenceError)
    ensures ToNumber(Some(NotExists), toPrimitive, round) == Err(ReferenceError)
    ensures ToInt64(Some(NotExists), m, alternateInfinity, toPrimitive, round) == Ok(m)
  {
  }

  predicate IsInfinite(arg: Option<JSObject>) {
    arg.Some? && arg.value.Double? && arg.value.dValue.Infinity?
  }

  /** `alternateInfinity` matters only for an infinite Double, which it
      maps to the type's bounds instead of 0; an object whose primitive
      value is infinite converts to 0 whatever it says. */
  lemma Int32Infinity(arg: Option<JSObject>, n: Int32, toPrimitive: ToPrimitive, round: Rounding)
    requires Primitive(toPrimitive)
    ensures !IsInfinite(arg) ==> ToInt32(arg, n, true, toPrimitive, round) == ToInt32(arg, n, false, toPrimitive, round)
    ensures IsInfinite(arg) ==>
      ToInt32(arg, n, false, toPrimitive, round) == Ok(0) &&
      ToInt32(arg, n, true, toPrimitive, round) == Ok(if arg.value.dValue.positive then Int32Max else Int32Min)
  {
  }

  lemma Int64Infinity(arg: Option<JSObject>, n: Int64, toPrimitive: ToPrimitive, round: Rounding)
    requires Primitive(toPrimitive)
    ensures !IsInfinite(arg) ==> ToInt64(arg, n, true, toPrimitive, round) == ToInt64(arg, n, false, toPrimitive, round)
    ensures IsInfinite(arg) ==>
      ToInt64(arg, n, false, toPrimitive, round) == Ok(0) &&
      ToInt64(arg, n, true, toPrimitive, round) == Ok(if arg.value.dValue.positive then Int64Max else Int64Min)
  {
  }

  /** A finite Double goes to `int` through `long`: the `int` is the low
      32 bits of the `long`, and both are the double rounded toward zero
      when that fits. */
  lemma FiniteDouble(x: real, n: Int32, m: Int64, alternateInfinity: bool, toPrimitive: ToPrimitive, round: Rounding)
    requires Primitive(toPrimitive)
    ensures var r32 := ToInt32(Some(Double(Finite(x))), n, alternateInfinity, toPrimitive, round);
      var r64 := ToInt64(Some(Double(Finite(x))), m, alternateInfinity, toPrimitive, round);
      r32.Ok? && r64.Ok? && (r32.value as int - r64.value as int) % 0x1_0000_0000 == 0 &&
      (Int64Min as int <= Truncate(x) <= Int64Max as int ==> r64.value as int == Truncate(x)) &&
      (Int32Min as int <= Truncate(x) <= Int32Max as int ==> r32.value as int == Truncate(x))
  {
  }

  /** `JSObjectToInt64` sends an object's primitive value through
      `JSObjectToInt32`: the result is an `int`, widened. */
  lemma Int64OfObject(v: JSObject, n: Int64, alternateInfinity: bool, toPrimitive: ToPrimitive, round: Rounding)
    requires Primitive(toPrimitive) && IsObjectLike(v) && v.oValue.Some?
    ensures var r := ToInt64(Some(v), n, alternateInfinity, toPrimitive, round);
      match ToInt32(Some(v), 0, alternateInfinity, toPrimitive, round)
      case Ok(i) => r == Ok(i as Int64)
      case Err(e) => r == Err(e)
  {
  }

  /** On Bool, Int, absent values and every object, the two integer
      conversions agree. */
  lemma IntWidthsAgree(arg: Option<JSObject>, n: Int32, alternateInfinity: bool, toPrimitive: ToPrimitive, round: Rounding)
    requires Primitive(toPrimitive)
    requires arg.None? || !(arg.value.Double? || arg.value.String? || arg.value.NotExists?)
    ensures match ToInt32(arg, n, alternateInfinity, toPrimitive, round)
      case Ok(i) => ToInt64(arg, n as Int64, alternateInfinity, toPrimitive, round) == Ok(i as Int64)
      case Err(e) => ToInt64(arg, n as Int64, alternateInfinity, toPrimitive, round) == Err(e)
  {
  }

  predicate IsNumeric(v: JSObject) {
    v.Bool? || v.Int? || v.Double?
  }

  /** `JSObjectToNumber` gives a Bool, Int or Double value, and gives its
      argument back exactly when the argument is one already. */
  lemma NumberIsNumeric(arg: Option<JSObject>, toPrimitive: ToPrimitive, round: Rounding)
    requires Primitive(toPrimitive)
    ensures ToNumber(arg, toPrimitive, round).Ok? ==> IsNumeric(ToNumber(arg, toPrimitive, round).value)
    ensures arg.Some? ==> (ToNumber(arg, toPrimitive, round) == Ok(arg.value) <==> IsNumeric(arg.value))
  {
    if arg.Some? && IsObjectLike(arg.value) && arg.value.oValue.Some? && toPrimitive(arg.value).Ok? {
      PrimitiveNumber(toPrimitive(arg.value).value, toPrimitive, round);
    } else if arg.Some? && !IsObjectLike(arg.value) {
      PrimitiveNumber(arg.value, toPrimitive, round);
    }
  }

  lemma PrimitiveNumber(v: JSObject, toPrimitive: ToPrimitive, round: Rounding)
    requires Primitive(toPrimitive) && !IsObjectLike(v)
    ensures ToNumber(Some(v), toPrimitive, round).Ok? ==> IsNumeric(ToNumber(Some(v), toPrimitive, round).value)
  {
  }

  /** The double a numeric value stands for. */
  function AsDouble(v: JSObject): Float
    requires IsNumeric(v)
  {
    match v
    case Bool(i) => Finite(i as real)
    case Int(i) => Finite(i as real)
    case Double(d) => d
  }

  /** Values on which `JSObjectToDouble` and `JSObjectToNumber` are meant
      to agree: everything but strings (parsed with different options) and
      missing values. */
  predicate Comparable(v: JSObject) {
    !v.String? && !v.Undefined? && !v.NotExistsInObject?
  }

  /** `JSObjectToDouble` and `JSObjectToNumber` agree on comparable values
      whose primitive value, for an object, is comparable too; for an
      Undefined value the first gives NaN and the second 0. */
  lemma DoubleAndNumber(v: JSObject, toPrimitive: ToPrimitive, round: Rounding)
    requires Primitive(toPrimitive) && Comparable(v)
    requires IsObjectLike(v) && v.oValue.Some? && toPrimitive(v).Ok? ==> Comparable(toPrimitive(v).value)
    ensures match ToNumber(Some(v), toPrimitive, round)
      case Ok(r) => IsNumeric(r) && ToDouble(Some(v), toPrimitive, round) == Ok(AsDouble(r))
      case Err(e) => ToDouble(Some(v), toPrimitive, round) == Err(e)
    ensures ToDouble(Some(Undefined), toPrimitive, round) == Ok(NaN)
    ensures ToNumber(Some(Undefined), toPrimitive, round) == Ok(Int(0))
  {
    if IsObjectLike(v) && v.oValue.Some? && toPrimitive(v).Ok? {
      PrimitiveDoubleAndNumber(toPrimitive(v).value, toPrimitive, round);
    } else if !IsObjectLike(v) {
      PrimitiveDoubleAndNumber(v, toPrimitive, round);
    }
  }

  lemma PrimitiveDoubleAndNumber(v: JSObject, toPrimitive: ToPrimitive, round: Rounding)
    requires Primitive(toPrimitive) && Comparable(v) && !IsObjectLike(v)
    ensures match ToNumber(Some(v), toPrimitive, round)
      case Ok(r) => IsNumeric(r) && ToDouble(Some(v), toPrimitive, round) == Ok(AsDouble(r))
      case Err(e) => ToDouble(Some(v), toPrimitive, round) == Err(e)
  {
  }

  /** A string converts as its trimmed form does. */
  lemma StringsIgnorePadding(w1: seq<CodeUnit>, s: NetString, w2: seq<CodeUnit>, n: Int32, m: Int64,
                             alternateInfinity: bool, toPrimitive: ToPrimitive, round: Rounding)
    requires Primitive(toPrimitive) && |w1 + s + w2| < 0x8000_0000
    requires forall k | 0 <= k < |w1| :: IsWhiteSpace(w1[k])
    requires forall k | 0 <= k < |w2| :: IsWhiteSpace(w2[k])
    ensures var p := Some(String(w1 + s + w2));
      ToDouble(p, toPrimitive, round) == ToDouble(Some(String(s)), toPrimitive, round) &&
      ToInt32(p, n, alternateInfinity, toPrimitive, round) == ToInt32(Some(String(s)), n, alternateInfinity, toPrimitive, round) &&
      ToInt64(p, m, alternateInfinity, toPrimitive, round) == ToInt64(Some(String(s)), m, alternateInfinity, toPrimitive, round) &&
      ToNumber(p, toPrimitive, round) == ToNumber(Some(String(s)), toPrimitive, round)
  {
    var p: NetString := w1 + s + w2;
    TrimPadded(w1, s, w2);
    TrimmedAlikeDouble(p, s, toPrimitive, round);
    TrimmedAlikeInt32(p, s, n, alternateInfinity, toPrimitive, round);
    TrimmedAlikeInt64(p, s, m, alternateInfinity, toPrimitive, round);
    TrimmedAlikeNumber(p, s, toPrimitive, round);
  }

  /** Each conversion reads a string only through its trimmed text. */
  lemma TrimmedAlikeDouble(t: NetString, s: NetString, toPrimitive: ToPrimitive, round: Rounding)
    requires Primitive(toPrimitive)
    requires Trim(t) == Trim(s)
    ensures ToDouble(Some(String(t)), toPrimitive, round) == ToDouble(Some(String(s)), toPrimitive, round)
  {
  }

  lemma TrimmedAlikeInt32(t: NetString, s: NetString, n: Int32, alternateInfinity: bool,
                           toPrimitive: ToPrimitive, round: Rounding)
    requires Primitive(toPrimitive)
    requires Trim(t) == Trim(s)
    ensures ToInt32(Some(String(t)), n, alternateInfinity, toPrimitive, round)
      == ToInt32(Some(String(s)), n, alternateInfinity, toPrimitive, round)
  {
  }

  lemma TrimmedAlikeInt64(t: NetString, s: NetString, m: Int64, alternateInfinity: bool,
                           toPrimitive: ToPrimitive, round: Rounding)
    requires Primitive(toPrimitive)
    requires Trim(t) == Trim(s)
    ensures ToInt64(Some(String(t)), m, alternateInfinity, toPrimitive, round)
      == ToInt64(Some(String(s)), m, alternateInfinity, toPrimitive, round)
  {
  }

  lemma TrimmedAlikeNumber(t: NetString, s: NetString, toPrimitive: ToPrimitive, round: Rounding)
    requires Primitive(toPrimitive)
    requires Trim(t) == Trim(s)
    ensures ToNumber(Some(String(t)), toPrimitive, round) == ToNumber(Some(String(s)), toPrimitive, round)
  {
  }

  lemma ParsePadded(w1: seq<CodeUnit>, s: NetString, w2: seq<CodeUnit>, options: NumberSpec.Options, round: Rounding)
    requires |w1 + s + w2| < 0x8000_0000
    requires forall k | 0 <= k < |w1| :: IsWhiteSpace(w1[k])
    requires forall k | 0 <= k < |w2| :: IsWhiteSpace(w2[k])
    ensures ParseTrimmed(w1 + s + w2, options, round) == ParseTrimmed(s, options, round)
  {
    TrimPadded(w1, s, w2);
  }

  /** The text "NaN", with or without white space around it, converts to
      NaN as a double and as a number, while the integer conversions,
      which cast the NaN, give `int.MinValue` and `long.MinValue`. */
  lemma NaNString(w1: seq<CodeUnit>, w2: seq<CodeUnit>, n: Int32, m: Int64, alternateInfinity: bool,
                  toPrimitive: ToPrimitive, round: Rounding)
    requires Primitive(toPrimitive) && |w1| + 3 + |w2| < 0x8000_0000
    requires forall k | 0 <= k < |w1| :: IsWhiteSpace(w1[k])
    requires forall k | 0 <= k < |w2| :: IsWhiteSpace(w2[k])
    ensures var p := Some(String(w1 + NumberSpec.NaNWord + w2));
      ToDouble(p, toPrimitive, round) == Ok(NaN) &&
      ToNumber(p, toPrimitive, round) == Ok(Double(NaN)) &&
      ToInt32(p, n, alternateInfinity, toPrimitive, round) == Ok(Int32Min) &&
      ToInt64(p, m, alternateInfinity, toPrimitive, round) == Ok(Int64Min)
  {
    var word: NetString := NumberSpec.NaNWord;
    StringsIgnorePadding(w1, word, w2, n, m, alternateInfinity, toPrimitive, round);
    assert Trim(word) == word by {
      TrimIsTheSlice(word, 0, 3);
    }
    assert RunEnd(word, 0, NumberSpec.IsBlank) == 0;
  }

  /** "00e400" scans whole, with mantissa 0 and scale 400, and the
      reconstruction multiplies that 0 by an infinite power of ten: the
      text is NaN as a number, not 0. */
  lemma ZeroTimesHugeScaleIsNaN(toPrimitive: ToPrimitive, round: Rounding)
    requires Primitive(toPrimitive)
    ensures ToNumber(Some(String(NumberProps.ZeroZeroE400)), toPrimitive, round) == Ok(Double(NaN))
  {
    var t: NetString := NumberProps.ZeroZeroE400;
    assert Trim(t) == t by {
      TrimIsTheSlice(t, 0, 6);
    }
    NumberProps.ZeroMantissaHugeScale();
  }
}
