/** `Tools.skipComment` and `Tools.RemoveComments` (Core/Tools.cs:720-798):
    stepping over JavaScript comments, and blanking them out of a source
    text. Each is stated as a function over the text, and the source's
    loops are methods proved to compute it. */
module Comments {
  import opened Base
  import opened Chars

  //-------------------------------------------------------------------------
  // Comments
  //-------------------------------------------------------------------------

  /** A code unit a line comment runs over. */
  predicate InLineComment(c: CodeUnit) {
    !IsLineTerminator(c)
  }

  predicate CloserAt(code: seq<CodeUnit>, i: nat) {
    i + 1 < |code| && code[i] == Star && code[i + 1] == Slash
  }

  /** From `i`, just past the opener of a block comment: the position
      after the first closer ('*' then '/'), or a SyntaxError ("Unexpected
      end of source") when there is none. */
  function BlockCommentEnd(code: seq<CodeUnit>, i: nat): (r: Result<nat>)
    requires i <= |code|
    ensures r.Ok? ==> i + 2 <= r.value <= |code|
    ensures r.Err? ==> r.error == SyntaxError
    decreases |code| - i
  {
    if i + 1 >= |code| then Err(SyntaxError)
    else if CloserAt(code, i) then Ok(i + 2)
    else BlockCommentEnd(code, i + 1)
  }

  /** A comment opener: '/' followed by '/' or by '*'. */
  predicate CommentAt(code: seq<CodeUnit>, i: nat) {
    i + 1 < |code| && code[i] == Slash && (code[i + 1] == Slash || code[i + 1] == Star)
  }

  /** The comment loop of `skipComment`: consecutive comments, one after
      the other, with nothing between them. A line comment stops before its
      line terminator; a block comment ends after its closer. */
  function Comments(code: seq<CodeUnit>, i: nat): (r: Result<nat>)
    ensures r.Ok? ==> i <= r.value && (i <= |code| ==> r.value <= |code|)
    decreases |code| - i
  {
    if |code| <= i then Ok(i)
    else if code[i] == Slash && i + 1 < |code| && code[i + 1] == Slash then
      Comments(code, RunEnd(code, i + 2, InLineComment))
    else if code[i] == Slash && i + 1 < |code| && code[i + 1] == Star then
      match BlockCommentEnd(code, i + 2)
      case Err(e) => Err(e)
      case Ok(j) => Comments(code, j)
    else Ok(i)
  }

  /** `skipComment(code, ref index, skipSpaces)`: the comments, then, if
      asked, the white space after them. */
  function SkipCommentSpec(code: seq<CodeUnit>, index: nat, skipSpaces: bool): (r: Result<nat>)
    ensures r.Ok? ==> index <= r.value && (index <= |code| ==> r.value <= |code|)
  {
    match Comments(code, index)
    case Err(e) => Err(e)
    case Ok(j) => if skipSpaces && j < |code| then Ok(RunEnd(code, j, IsWhiteSpace)) else Ok(j)
  }

  /** The loop of Tools.cs:735-736: to the end of the line. */
  method ScanLineComment(code: seq<CodeUnit>, i: nat) returns (e: nat)
    requires i <= |code|
    ensures e == RunEnd(code, i, InLineComment)
  {
    e := i;
    while e < |code| && !IsLineTerminator(code[e])
      invariant i <= e <= |code| && RunEnd(code, e, InLineComment) == RunEnd(code, i, InLineComment)
      decreases |code| - e
    {
      e := e + 1;
    }
  }

  /** Tools.cs:744-748: to the first closer, and past it. */
  method ScanBlockComment(code: seq<CodeUnit>, i: nat) returns (r: Result<nat>)
    requires i <= |code|
    ensures r == BlockCommentEnd(code, i)
  {
    var e := i;
    while e + 1 < |code| && (code[e] != Star || code[e + 1] != Slash)
      invariant i <= e <= |code| && BlockCommentEnd(code, e) == BlockCommentEnd(code, i)
      decreases |code| - e
    {
      e := e + 1;
    }
    if e + 1 >= |code| {
      return Err(SyntaxError);
    }
    return Ok(e + 2);
  }

  /** Tools.cs:756-757 and 765: over white space. */
  method ScanWhiteSpace(code: seq<CodeUnit>, i: nat) returns (e: nat)
    requires i <= |code|
    ensures e == RunEnd(code, i, IsWhiteSpace)
  {
    e := i;
    while e < |code| && IsWhiteSpace(code[e])
      invariant i <= e <= |code| && RunEnd(code, e, IsWhiteSpace) == RunEnd(code, i, IsWhiteSpace)
      decreases |code| - e
    {
      e := e + 1;
    }
  }

  /** The do-while loop of Tools.cs:720-759, with `index` passed by
      reference: the new index is the result. */
  method SkipComment(code: seq<CodeUnit>, index: nat, skipSpaces: bool) returns (r: Result<nat>)
    ensures r == SkipCommentSpec(code, index, skipSpaces)
  {
    var i := index;
    var work := true;
    while work
      invariant work ==> Comments(code, index) == Comments(code, i)
      invariant !work ==> Comments(code, index) == Ok(i) && i < |code|
      decreases if i <= |code| then |code| - i else 0, work
    {
      if |code| <= i {
        return Ok(i);
      }
      work := false;
      if code[i] == Slash && i + 1 < |code| {
        if code[i + 1] == Slash {
          i := ScanLineComment(code, i + 2);
          work := true;
        } else if code[i + 1] == Star {
          var closed := ScanBlockComment(code, i + 2);
          if closed.Err? {
            return Err(SyntaxError);
          }
          i := closed.value;
          work := true;
        }
      }
    }
    if skipSpaces {
      i := ScanWhiteSpace(code, i);
    }
    return Ok(i);
  }

  //-------------------------------------------------------------------------
  // Properties of skipComment
  //-------------------------------------------------------------------------

  /** A block comment ends right after the first closer from `i`, and is
      unterminated exactly when there is none. */
  lemma {:induction false} BlockCommentEndFirst(code: seq<CodeUnit>, i: nat)
    requires i <= |code|
    ensures BlockCommentEnd(code, i).Err? <==> forall k | i <= k < |code| :: !CloserAt(code, k)
    ensures BlockCommentEnd(code, i).Ok? ==>
      var j := BlockCommentEnd(code, i).value;
      CloserAt(code, j - 2) && forall k | i <= k < j - 2 :: !CloserAt(code, k)
    decreases |code| - i
  {
    if i + 1 < |code| && !CloserAt(code, i) {
      BlockCommentEndFirst(code, i + 1);
    }
  }

  /** The comment loop stops only where no comment starts. */
  lemma {:induction false} CommentsStop(code: seq<CodeUnit>, i: nat)
    ensures Comments(code, i).Ok? ==> !CommentAt(code, Comments(code, i).value)
    decreases |code| - i
  {
    if i < |code| && code[i] == Slash && i + 1 < |code| && code[i + 1] == Slash {
      CommentsStop(code, RunEnd(code, i + 2, InLineComment));
    } else if i < |code| && code[i] == Slash && i + 1 < |code| && code[i + 1] == Star {
      var b := BlockCommentEnd(code, i + 2);
      if b.Ok? {
        CommentsStop(code, b.value);
      }
    }
  }

  /** The comment loop fails only with the SyntaxError of an unterminated
      block comment. */
  lemma {:induction false} CommentsErrors(code: seq<CodeUnit>, i: nat)
    ensures Comments(code, i).Err? ==> Comments(code, i).error == SyntaxError
    decreases |code| - i
  {
    if i < |code| && code[i] == Slash && i + 1 < |code| && code[i + 1] == Slash {
      CommentsErrors(code, RunEnd(code, i + 2, InLineComment));
    } else if i < |code| && code[i] == Slash && i + 1 < |code| && code[i + 1] == Star {
      var b := BlockCommentEnd(code, i + 2);
      if b.Ok? {
        CommentsErrors(code, b.value);
      }
    }
  }

  /** Where no comment starts, the comment loop does nothing. */
  lemma NoCommentNoMove(code: seq<CodeUnit>, i: nat)
    requires !CommentAt(code, i)
    ensures Comments(code, i) == Ok(i)
  {
  }

  /** A comment loop that succeeds leaves `index` neither on a comment
      opener nor, when spaces are skipped, on white space. */
  lemma SkipCommentStops(code: seq<CodeUnit>, index: nat, skipSpaces: bool)
    requires index <= |code|
    ensures var r := SkipCommentSpec(code, index, skipSpaces);
      r.Ok? && skipSpaces ==> r.value == |code| || !IsWhiteSpace(code[r.value])
    ensures var r := SkipCommentSpec(code, index, skipSpaces);
      r.Ok? && !skipSpaces ==> !CommentAt(code, r.value)
  {
    CommentsStop(code, index);
  }

  //-------------------------------------------------------------------------
  // RemoveComments
  //-------------------------------------------------------------------------

  /** `n` spaces. */
  function Spaces(n: nat): (r: seq<CodeUnit>)
    ensures |r| == n
  {
    if n == 0 then [] else Spaces(n - 1) + [Space]
  }

  /** `Parser.ValidateString(code, ref i, false)` is not part of this model:
      it is a parameter that, at `i`, either recognises a string literal
      and gives the index after it, or does not. */
  type Validator = (seq<CodeUnit>, nat) -> Option<nat>

  /** What the source relies on: a recognised literal is not empty and
      lies inside the text. */
  predicate Advances(validate: Validator, code: seq<CodeUnit>) {
    forall i | 0 <= i < |code| :: validate(code, i).Some? ==> i < validate(code, i).value <= |code|
  }

  /** What is copied at `j` after the comments: a recognised string
      literal whole, or any other code unit alone. */
  function Literal(code: seq<CodeUnit>, j: nat, validate: Validator): (r: seq<CodeUnit>)
    requires j < |code| && Advances(validate, code)
    ensures r == code[j..LiteralEnd(code, j, validate)]
  {
    match validate(code, j)
    case Some(k) => code[j..k]
    case None => [code[j]]
  }

  /** The index after `Literal(code, j, validate)`. */
  function LiteralEnd(code: seq<CodeUnit>, j: nat, validate: Validator): (r: nat)
    requires j < |code| && Advances(validate, code)
    ensures j < r <= |code|
  {
    match validate(code, j)
    case Some(k) => k
    case None => j + 1
  }

  /** The text from `i` on with its comments blanked out: white space is
      copied, each code unit of a comment becomes a space, then a literal
      is copied, and so on to the end. */
  function Strip(code: seq<CodeUnit>, i: nat, validate: Validator): (r: Result<seq<CodeUnit>>)
    requires i <= |code| && Advances(validate, code)
    ensures r.Ok? ==> |r.value| == |code| - i
    decreases |code| - i
  {
    if i == |code| then Ok([])
    else
      var w := RunEnd(code, i, IsWhiteSpace);
      match Comments(code, w)
      case Err(e) => Err(e)
      case Ok(j) =>
        var blanked := code[i..w] + Spaces(j - w);
        if j == |code| then Ok(blanked)
        else Prepend(blanked + Literal(code, j, validate), Strip(code, LiteralEnd(code, j, validate), validate))
  }

  function RemoveCommentsSpec(code: seq<CodeUnit>, validate: Validator): (r: Result<seq<CodeUnit>>)
    requires Advances(validate, code)
    ensures r.Ok? ==> |r.value| == |code|
  {
    Strip(code, 0, validate)
  }

  /** `res.Append(' ')`, `n` times. */
  method AppendSpaces(res: seq<CodeUnit>, n: nat) returns (r: seq<CodeUnit>)
    ensures r == res + Spaces(n)
  {
    r := res;
    var k := 0;
    while k < n
      invariant k <= n && r == res + Spaces(k)
    {
      r := r + [Space];
      k := k + 1;
    }
  }

  /** One round of `Strip` from `i`, over the white space to `w` and the
      comments to `j`. */
  lemma StripRound(code: seq<CodeUnit>, i: nat, w: nat, j: nat, validate: Validator)
    requires i < |code| && Advances(validate, code) && w == RunEnd(code, i, IsWhiteSpace)
    requires Comments(code, w) == Ok(j)
    ensures j == |code| ==> Strip(code, i, validate) == Prepend(code[i..w] + Spaces(j - w), Strip(code, j, validate))
    ensures j < |code| ==>
      Strip(code, i, validate) ==
      Prepend(code[i..w] + Spaces(j - w) + Literal(code, j, validate), Strip(code, LiteralEnd(code, j, validate), validate))
  {
    if j == |code| {
      PrependOk(code[i..w] + Spaces(j - w), []);
      assert code[i..w] + Spaces(j - w) + [] == code[i..w] + Spaces(j - w);
    }
  }

  /** Strip's text from 0 grows by `d` as the loop moves from `i` to
      `next`. */
  lemma StripAdvance(code: seq<CodeUnit>, validate: Validator, i: nat, next: nat, out: seq<CodeUnit>, d: seq<CodeUnit>)
    requires i <= next <= |code| && Advances(validate, code)
    requires Strip(code, 0, validate) == Prepend(out, Strip(code, i, validate))
    requires Strip(code, i, validate) == Prepend(d, Strip(code, next, validate))
    ensures Strip(code, 0, validate) == Prepend(out + d, Strip(code, next, validate))
  {
    PrependPrepend(out, d, Strip(code, next, validate));
  }

  /** The text the loop of Tools.cs:763-789 has produced when it reaches
      `i`: the builder once it exists, and before that the input up to
      `i`, unchanged. */
  function Produced(code: seq<CodeUnit>, i: nat, built: bool, res: seq<CodeUnit>): seq<CodeUnit>
    requires i <= |code|
  {
    if built then res else code[..i]
  }

  /** The first half of a round of that loop, from `i`: white space is
      copied and the comments after it are replaced by spaces, the builder
      being created, with the text before the comment, at the first one. */
  method BlankRound(code: seq<CodeUnit>, i: nat, res: seq<CodeUnit>, built: bool)
    returns (failed: Option<Error>, w: nat, j: nat, res': seq<CodeUnit>, built': bool)
    requires i < |code|
    ensures w == RunEnd(code, i, IsWhiteSpace)
    ensures failed.Some? ==> Comments(code, w) == Err(failed.value)
    ensures failed.None? ==> Comments(code, w) == Ok(j) && j <= |code|
    ensures failed.None? ==>
      Produced(code, j, built', res') == Produced(code, i, built, res) + (code[i..w] + Spaces(j - w))
  {
    w := ScanWhiteSpace(code, i);
    res', built' := res, built;
    if built' {
      res' := AppendRange(res', code, i, w);
    }
    var skipped := SkipComment(code, w, false);
    if skipped.Err? {
      return Some(skipped.error), w, w, res', built';
    }
    failed, j := None, skipped.value;
    ghost var blanked := code[i..w] + Spaces(j - w);
    if built' {
      res' := AppendSpaces(res', j - w);
      ConcatAssoc(res, code[i..w], Spaces(j - w));
    } else if w != j {
      res' := AppendRange([], code, 0, w);
      assert [] + code[0..w] == code[..w];
      PrefixSplit(code, i, w);
      res' := AppendSpaces(res', j - w);
      built' := true;
      ConcatAssoc(code[..i], code[i..w], Spaces(j - w));
    } else {
      assert blanked == code[i..w] + [];
      PrefixSplit(code, i, w);
    }
  }

  /** The second half of a round: the literal at `j` is copied. */
  method CopyRound(code: seq<CodeUnit>, validate: Validator, j: nat, res: seq<CodeUnit>, built: bool)
    returns (next: nat, res': seq<CodeUnit>)
    requires j < |code| && Advances(validate, code)
    ensures next == LiteralEnd(code, j, validate)
    ensures Produced(code, next, built, res') == Produced(code, j, built, res) + Literal(code, j, validate)
  {
    res' := res;
    match validate(code, j)
    case Some(k) =>
      next := k;
      if built {
        res' := AppendRange(res', code, j, k);
      }
    case None =>
      next := j + 1;
      if built {
        res' := res' + [code[j]];
      }
    if !built {
      assert code[..next] == code[..j] + code[j..next];
    }
  }

  /** A whole round of the loop of Tools.cs:763-789 from `i`, over white
      space to `w`, comments to `j` and a literal to `next`: `delta` is
      what it adds to the text produced. */
  method Round(code: seq<CodeUnit>, validate: Validator, i: nat, res: seq<CodeUnit>, built: bool)
    returns (failed: Option<Error>, w: nat, j: nat, next: nat, res': seq<CodeUnit>, built': bool,
             ghost delta: seq<CodeUnit>)
    requires i < |code| && Advances(validate, code)
    ensures w == RunEnd(code, i, IsWhiteSpace)
    ensures failed.Some? ==> Comments(code, w) == Err(failed.value)
    ensures failed.None? ==> Comments(code, w) == Ok(j) && j <= |code|
    ensures failed.None? && j == |code| ==> next == j && delta == code[i..w] + Spaces(j - w)
    ensures failed.None? && j < |code| ==>
      next == LiteralEnd(code, j, validate) && delta == code[i..w] + Spaces(j - w) + Literal(code, j, validate)
    ensures failed.None? ==> Produced(code, next, built', res') == Produced(code, i, built, res) + delta
  {
    failed, w, j, res', built' := BlankRound(code, i, res, built);
    if failed.Some? {
      return failed, w, j, i, res', built', [];
    }
    ghost var blanked := code[i..w] + Spaces(j - w);
    if j == |code| {
      next, delta := j, blanked;
    } else {
      ghost var middle := Produced(code, j, built', res');
      next, res' := CopyRound(code, validate, j, res', built');
      delta := blanked + Literal(code, j, validate);
      ConcatAssoc(Produced(code, i, built, res), blanked, Literal(code, j, validate));
    }
  }

  /** A comment left open ends `Strip` with its error. */
  lemma StripFails(code: seq<CodeUnit>, i: nat, w: nat, validate: Validator)
    requires i < |code| && Advances(validate, code) && w == RunEnd(code, i, IsWhiteSpace)
    requires Comments(code, w).Err?
    ensures Strip(code, i, validate) == Err(Comments(code, w).error)
  {
  }

  //-------------------------------------------------------------------------
  // Properties of RemoveComments
  //-------------------------------------------------------------------------

  lemma {:induction false} SpacesAreSpaces(n: nat)
    ensures forall k | 0 <= k < n :: Spaces(n)[k] == Space
  {
    if n > 0 {
      SpacesAreSpaces(n - 1);
    }
  }

  /** `out` is `src` with some code units replaced by spaces. */
  predicate Blanked(out: seq<CodeUnit>, src: seq<CodeUnit>) {
    |out| == |src| && forall k | 0 <= k < |out| :: out[k] == src[k] || out[k] == Space
  }

  lemma BlankedConcat(a: seq<CodeUnit>, sa: seq<CodeUnit>, b: seq<CodeUnit>, sb: seq<CodeUnit>)
    requires Blanked(a, sa) && Blanked(b, sb)
    ensures Blanked(a + b, sa + sb)
  {
    forall k | 0 <= k < |a + b|
      ensures (a + b)[k] == (sa + sb)[k] || (a + b)[k] == Space
    {
      if k >= |a| {
        assert (a + b)[k] == b[k - |a|] && (sa + sb)[k] == sb[k - |a|];
      }
    }
  }

  /** Blanking keeps every position: the text stays as long as the input,
      and each code unit is the input's own or a space. */
  lemma {:induction false} StripShape(code: seq<CodeUnit>, i: nat, validate: Validator)
    requires i <= |code| && Advances(validate, code)
    ensures Strip(code, i, validate).Ok? ==> Blanked(Strip(code, i, validate).value, code[i..])
    decreases |code| - i
  {
    if i < |code| {
      var w := RunEnd(code, i, IsWhiteSpace);
      if Comments(code, w).Ok? {
        var j := Comments(code, w).value;
        SpacesAreSpaces(j - w);
        assert Blanked(Spaces(j - w), code[w..j]);
        BlankedConcat(code[i..w], code[i..w], Spaces(j - w), code[w..j]);
        var blanked := code[i..w] + Spaces(j - w);
        SliceJoin(code, i, w, j);
        StripRound(code, i, w, j, validate);
        if j == |code| {
          PrependOk(blanked, []);
          assert blanked + [] == blanked;
          assert code[i..j] == code[i..];
        } else {
          var e := LiteralEnd(code, j, validate);
          StripShape(code, e, validate);
          if Strip(code, e, validate).Ok? {
            var rest := Strip(code, e, validate).value;
            assert Blanked(Literal(code, j, validate), code[j..e]);
            BlankedConcat(blanked, code[i..j], Literal(code, j, validate), code[j..e]);
            SliceJoin(code, i, j, e);
            BlankedConcat(blanked + Literal(code, j, validate), code[i..e], rest, code[e..|code|]);
            SliceJoin(code, i, e, |code|);
          }
        }
      }
    }
  }

  /** A text with no comment opener from `i` on comes out unchanged. */
  lemma {:induction false} NoCommentsUnchanged(code: seq<CodeUnit>, i: nat, validate: Validator)
    requires i <= |code| && Advances(validate, code)
    requires forall k | i <= k < |code| :: !CommentAt(code, k)
    ensures Strip(code, i, validate) == Ok(code[i..])
    decreases |code| - i
  {
    if i < |code| {
      var w := RunEnd(code, i, IsWhiteSpace);
      NoCommentNoMove(code, w);
      StripRound(code, i, w, w, validate);
      assert code[i..w] + Spaces(0) == code[i..w];
      if w == |code| {
        PrependOk(code[i..w], []);
        assert code[i..w] + [] == code[i..];
      } else {
        var e := LiteralEnd(code, w, validate);
        NoCommentsUnchanged(code, e, validate);
        assert Literal(code, w, validate) == code[w..e];
        PrependOk(code[i..w] + code[w..e], code[e..]);
        SliceJoin(code, i, w, e);
        SliceJoin(code, i, e, |code|);
        assert code[e..] == code[e..|code|] && code[i..] == code[i..|code|];
      }
    }
  }

  /** An unterminated block comment outside any literal makes the whole
      removal fail; it is the only error. */
  lemma {:induction false} StripErrors(code: seq<CodeUnit>, i: nat, validate: Validator)
    requires i <= |code| && Advances(validate, code)
    ensures Strip(code, i, validate).Err? ==> Strip(code, i, validate).error == SyntaxError
    decreases |code| - i
  {
    if i < |code| {
      var w := RunEnd(code, i, IsWhiteSpace);
      CommentsErrors(code, w);
      if Comments(code, w).Ok? && Comments(code, w).value < |code| {
        StripErrors(code, LiteralEnd(code, Comments(code, w).value, validate), validate);
      }
    }
  }

  /** The loop of Tools.cs:761-798. The builder is created at the first
      comment, with the text before it copied in; without a comment the
      input itself is returned. */
  method RemoveComments(code: seq<CodeUnit>, validate: Validator) returns (r: Result<seq<CodeUnit>>)
    requires Advances(validate, code)
    ensures r == RemoveCommentsSpec(code, validate)
  {
    var res: seq<CodeUnit> := [];
    var built := false;
    var i := 0;
    PrependNothing(Strip(code, 0, validate));
    while i < |code|
      invariant i <= |code|
      invariant Strip(code, 0, validate) == Prepend(Produced(code, i, built, res), Strip(code, i, validate))
      decreases |code| - i
    {
      ghost var before := Produced(code, i, built, res);
      var failed, w, j, next;
      ghost var delta;
      failed, w, j, next, res, built, delta := Round(code, validate, i, res, built);
      if failed.Some? {
        StripFails(code, i, w, validate);
        return Err(failed.value);
      }
      StripRound(code, i, w, j, validate);
      StripAdvance(code, validate, i, next, before, delta);
      i := next;
    }
    ghost var produced := Produced(code, i, built, res);
    PrependOk(produced, []);
    AppendNothing(produced);
    AppendNothing(code);
    r := Ok(if built then res else code);
  }
}
