/** Machine-level vocabulary shared by every scanner of NiL.JS's Core/Tools.cs:
    UTF-16 code units, the fixed-width integer types C# uses, and the two
    outcomes a call can have (a value, or an exception the caller sees). */
module Base {

  /** One element of a .NET string: a UTF-16 code unit. A lone surrogate is
      a legal code unit, which is why Dafny's `char` is not used. */
  newtype CodeUnit = x: int | 0 <= x < 0x1_0000

  /** C#'s `ulong`: arithmetic on this type is checked, so a proof about it
      shows that the source's accumulation never wraps. */
  newtype UInt64 = x: int | 0 <= x < 0x1_0000_0000_0000_0000

  /** C#'s `int` and `long`. */
  newtype Int32 = x: int | -0x8000_0000 <= x < 0x8000_0000
  newtype Int64 = x: int | -0x8000_0000_0000_0000 <= x < 0x8000_0000_0000_0000

  const Int32Max: Int32 := 0x7FFF_FFFF
  const Int32Min: Int32 := -0x8000_0000
  const Int64Max: Int64 := 0x7FFF_FFFF_FFFF_FFFF
  const Int64Min: Int64 := -0x8000_0000_0000_0000

  /** Unchecked C# `int` arithmetic: the two's-complement value congruent to
      `x` modulo 2^32. */
  function Wrap32(x: int): (r: Int32)
    ensures (r as int - x) % 0x1_0000_0000 == 0
    ensures -0x8000_0000 <= x < 0x8000_0000 ==> r as int == x
  {
    var m := x % 0x1_0000_0000;
    if m < 0x8000_0000 then m as Int32 else (m - 0x1_0000_0000) as Int32
  }

  /** Two integers congruent modulo 2^32 wrap to the same `int`. */
  lemma Wrap32Congruent(x: int, y: int)
    requires (x - y) % 0x1_0000_0000 == 0
    ensures Wrap32(x) == Wrap32(y)
  {
    var q := (x - y) / 0x1_0000_0000;
    assert x == y + q * 0x1_0000_0000;
    assert x % 0x1_0000_0000 == y % 0x1_0000_0000 by {
      ModShift(y, q);
    }
  }

  lemma ModShift(y: int, q: int)
    ensures (y + q * 0x1_0000_0000) % 0x1_0000_0000 == y % 0x1_0000_0000
  {
  }

  /** One step of an unchecked `td = td * 10 + d`: wrapping after every
      step gives the same `int` as wrapping once at the end. */
  lemma Wrap32MulAdd(v: int, m: int, d: int)
    ensures Wrap32(Wrap32(v) as int * m + d) == Wrap32(v * m + d)
  {
    var w := Wrap32(v) as int;
    var q := (w - v) / 0x1_0000_0000;
    assert w - v == q * 0x1_0000_0000;
    assert (w * m + d) - (v * m + d) == (q * m) * 0x1_0000_0000;
    ModShift(0, q * m);
    Wrap32Congruent(w * m + d, v * m + d);
  }

  /** The exceptions the modelled code lets escape. `IndexOutOfRange` is the
      .NET exception raised when the source reads a string past its end. */
  datatype Error =
    | SyntaxError          // JSException wrapping a SyntaxError
    | ReferenceError       // JSException wrapping a ReferenceError
    | IndexOutOfRange      // IndexOutOfRangeException from `code[i]`
    | ArgumentOutOfRange   // ArgumentOutOfRangeException
    | Overflow             // OverflowException from `decimal` arithmetic
    | NotImplemented       // NotImplementedException

  datatype Result<T> = Ok(value: T) | Err(error: Error)

  datatype Option<T> = None | Some(value: T)

  /** Prefixes `out` to a successful result; an exception passes through. */
  function Prepend<T>(out: seq<T>, r: Result<seq<T>>): Result<seq<T>> {
    match r
    case Ok(s) => Ok(out + s)
    case Err(e) => Err(e)
  }

  lemma PrependPrepend<T>(a: seq<T>, b: seq<T>, r: Result<seq<T>>)
    ensures Prepend(a, Prepend(b, r)) == Prepend(a + b, r)
  {
    if r.Ok? {
      assert a + (b + r.value) == (a + b) + r.value;
    }
  }

  lemma PrependOk<T>(a: seq<T>, b: seq<T>)
    ensures Prepend(a, Ok(b)) == Ok(a + b)
  {
  }

  /** Concatenation is associative. */
  lemma ConcatAssoc<T>(a: seq<T>, b: seq<T>, c: seq<T>)
    ensures a + b + c == a + (b + c)
  {
  }

  /** A prefix splits at any point inside it. */
  lemma PrefixSplit<T>(s: seq<T>, i: nat, j: nat)
    requires i <= j <= |s|
    ensures s[..j] == s[..i] + s[i..j]
  {
  }

  /** Adjacent slices join. */
  lemma SliceJoin<T>(s: seq<T>, a: nat, b: nat, c: nat)
    requires a <= b <= c <= |s|
    ensures s[a..b] + s[b..c] == s[a..c]
  {
  }

  /** A slice grows by one element at its end. */
  lemma SliceSnoc<T>(s: seq<T>, a: nat, b: nat)
    requires a <= b < |s|
    ensures s[a..b + 1] == s[a..b] + [s[b]]
  {
  }

  lemma AppendNothing<T>(s: seq<T>)
    ensures s + [] == s && s[..|s|] == s
  {
  }

  lemma PrependNothing<T>(r: Result<seq<T>>)
    ensures Prepend([], r) == r
  {
    if r.Ok? {
      assert [] + r.value == r.value;
    }
  }

  /** A `StringBuilder` being filled from a string: `res.Append(code[k])`
      for each `k` from `from` to `to`, the loop the scanners write out. */
  method AppendRange<T>(res: seq<T>, code: seq<T>, from: nat, to: nat) returns (r: seq<T>)
    requires from <= to <= |code|
    ensures r == res + code[from..to]
  {
    r := res;
    var k := from;
    assert res + code[from..from] == res;
    while k < to
      invariant from <= k <= to && r == res + code[from..k]
    {
      SliceSnoc(code, from, k);
      r := r + [code[k]];
      k := k + 1;
    }
  }
}
