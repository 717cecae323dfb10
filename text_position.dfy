/** `Tools.PositionToTextcord` (Core/Tools.cs:810-855): the line and column,
    both counted from 1, of a position in a source text. A line ends at LF
    or CR; an LF directly followed by CR, or a CR directly followed by LF,
    ends one line only. */
module TextPosition {
  import opened Base
  import opened Chars

  /** `Tools.TextCord`. */
  datatype TextCord = TextCord(line: int, column: int)

  /** The two code units the loop treats as ending a line. */
  predicate IsBreak(c: CodeUnit) {
    c == LF || c == CR
  }

  /** The loop of Tools.cs:835-852 from cursor `i`, with `line` and
      `column` so far. At a line end it reads the next code unit, whether
      or not the text has one, to see if the pair goes on; reading past the
      end of the text raises IndexOutOfRange. */
  function Walk(text: seq<CodeUnit>, i: nat, position: int, line: int, column: int): (r: Result<TextCord>)
    ensures r.Err? ==> r.error == IndexOutOfRange
    ensures r.Ok? && 1 <= line && 1 <= column ==> line <= r.value.line && 1 <= r.value.column
    decreases position - i
  {
    if position <= i then Ok(TextCord(line, column))
    else if |text| <= i then Err(IndexOutOfRange)
    else if IsBreak(text[i]) then
      if |text| <= i + 1 then Err(IndexOutOfRange)
      else
        var partner := if text[i] == LF then CR else LF;
        Walk(text, if text[i + 1] == partner then i + 2 else i + 1, position, line + 1, 1)
    else Walk(text, i + 1, position, line, column + 1)
  }

  /** `PositionToTextcord(text, position)`. */
  function TextCordOf(text: seq<CodeUnit>, position: Int32): (r: Result<TextCord>)
    ensures r.Err? ==> r.error == if position < 0 then ArgumentOutOfRange else IndexOutOfRange
    ensures r.Ok? ==> 1 <= r.value.line && 1 <= r.value.column
  {
    if position < 0 then Err(ArgumentOutOfRange) else Walk(text, 0, position as int, 1, 1)
  }

  /** Tools.cs:827-855. */
  method PositionToTextcord(text: seq<CodeUnit>, position: Int32) returns (r: Result<TextCord>)
    ensures r == TextCordOf(text, position)
  {
    if position < 0 {
      return Err(ArgumentOutOfRange);
    }
    var line := 1;
    var column := 1;
    var i: nat := 0;
    while i < position as int
      invariant Walk(text, i, position as int, line, column) == TextCordOf(text, position)
      decreases position as int - i
    {
      if |text| <= i {
        return Err(IndexOutOfRange);
      }
      if text[i] == LF {
        column := 0;
        line := line + 1;
        if |text| <= i + 1 {
          return Err(IndexOutOfRange);
        }
        if text[i + 1] == CR {
          i := i + 1;
        }
      } else if text[i] == CR {
        column := 0;
        line := line + 1;
        if |text| <= i + 1 {
          return Err(IndexOutOfRange);
        }
        if text[i + 1] == LF {
          i := i + 1;
        }
      }
      column := column + 1;
      i := i + 1;
    }
    return Ok(TextCord(line, column));
  }

  //-------------------------------------------------------------------------
  // Properties
  //-------------------------------------------------------------------------

  /** Where the line holding position `p` starts: just after the last line
      end before `p`, or at 0. */
  function LineStart(text: seq<CodeUnit>, p: nat): (s: nat)
    requires p <= |text|
    ensures s <= p && (s == 0 || IsBreak(text[s - 1]))
    ensures forall k | s <= k < p :: !IsBreak(text[k])
  {
    if p == 0 || IsBreak(text[p - 1]) then p else LineStart(text, p - 1)
  }

  /** Whether the line-end code unit at `k` ends a line of its own: it
      does unless it completes a pair (LF CR or CR LF) whose first half
      ended a line. */
  predicate EndsLine(text: seq<CodeUnit>, k: nat)
    requires k < |text|
    decreases k
  {
    IsBreak(text[k]) &&
    !(k > 0 && IsBreak(text[k - 1]) && text[k - 1] != text[k] && EndsLine(text, k - 1))
  }

  /** The number of lines ended before position `p`. */
  function Lines(text: seq<CodeUnit>, p: nat): nat
    requires p <= |text|
  {
    if p == 0 then 0 else Lines(text, p - 1) + (if EndsLine(text, p - 1) then 1 else 0)
  }

  /** A negative position is refused; any position past the end of the
      text makes the loop read past it. */
  lemma TextCordErrors(text: seq<CodeUnit>, position: Int32)
    ensures position < 0 ==> TextCordOf(text, position) == Err(ArgumentOutOfRange)
    ensures |text| < position as int ==> TextCordOf(text, position) == Err(IndexOutOfRange)
  {
    if 0 <= position && |text| < position as int {
      WalkPastEnd(text, 0, position as int, 1, 1);
    }
  }

  lemma {:induction false} WalkPastEnd(text: seq<CodeUnit>, i: nat, position: int, line: int, column: int)
    requires i <= |text| < position
    ensures Walk(text, i, position, line, column) == Err(IndexOutOfRange)
    decreases position - i
  {
    if i < |text| && IsBreak(text[i]) && i + 1 < |text| {
      var partner := if text[i] == LF then CR else LF;
      WalkPastEnd(text, if text[i + 1] == partner then i + 2 else i + 1, position, line + 1, 1);
    } else if i < |text| && !IsBreak(text[i]) {
      WalkPastEnd(text, i + 1, position, line, column + 1);
    }
  }

  /** Every position inside the text has a line and a column. */
  lemma TextCordInside(text: seq<CodeUnit>, position: Int32)
    requires 0 <= position as int < |text|
    ensures TextCordOf(text, position).Ok?
  {
    WalkInside(text, 0, position as int, 1, 1);
  }

  lemma {:induction false} WalkInside(text: seq<CodeUnit>, i: nat, position: int, line: int, column: int)
    requires position < |text|
    ensures Walk(text, i, position, line, column).Ok?
    decreases position - i
  {
    if i < position {
      if IsBreak(text[i]) {
        var partner := if text[i] == LF then CR else LF;
        WalkInside(text, if text[i + 1] == partner then i + 2 else i + 1, position, line + 1, 1);
      } else {
        WalkInside(text, i + 1, position, line, column + 1);
      }
    }
  }

  /** The column counts from the start of the position's line: a position
      `n` code units after the last line end has column n + 1. A position
      that is the second half of a line-end pair counts as the start of the
      next line. */
  lemma ColumnFromLineStart(text: seq<CodeUnit>, position: Int32)
    ensures TextCordOf(text, position).Ok? && 0 <= position ==>
      position as int <= |text| &&
      TextCordOf(text, position).value.column == position as int - LineStart(text, position as int) + 1
  {
    if 0 <= position {
      if |text| < position as int {
        TextCordErrors(text, position);
      } else {
        WalkColumn(text, 0, position as int, 1, 1);
      }
    }
  }

  lemma {:induction false} WalkColumn(text: seq<CodeUnit>, i: nat, position: nat, line: int, column: int)
    requires i <= position <= |text|
    requires column == i - LineStart(text, i) + 1
    ensures Walk(text, i, position, line, column).Ok? ==>
      Walk(text, i, position, line, column).value.column == position - LineStart(text, position) + 1
    decreases position - i
  {
    if i < position {
      if IsBreak(text[i]) {
        if i + 1 < |text| {
          var partner := if text[i] == LF then CR else LF;
          if text[i + 1] == partner && i + 2 <= position {
            WalkColumn(text, i + 2, position, line + 1, 1);
          } else if text[i + 1] != partner {
            WalkColumn(text, i + 1, position, line + 1, 1);
          }
        }
      } else {
        WalkColumn(text, i + 1, position, line, column + 1);
      }
    }
  }

  /** The line is one more than the number of lines ended before the
      position, an LF CR or CR LF pair ending a single line. */
  lemma LineCount(text: seq<CodeUnit>, position: Int32)
    ensures TextCordOf(text, position).Ok? && 0 <= position ==>
      position as int <= |text| &&
      TextCordOf(text, position).value.line == 1 + Lines(text, position as int)
  {
    if 0 <= position {
      if |text| < position as int {
        TextCordErrors(text, position);
      } else {
        WalkLines(text, 0, position as int, 1, 1);
      }
    }
  }

  lemma {:induction false} WalkLines(text: seq<CodeUnit>, i: nat, position: nat, line: int, column: int)
    requires i <= |text| && position <= |text|
    requires i <= position || (i == position + 1 && !EndsLine(text, position))
    requires line == 1 + Lines(text, i)
    requires i < |text| && IsBreak(text[i]) ==> EndsLine(text, i)
    ensures Walk(text, i, position, line, column).Ok? ==>
      Walk(text, i, position, line, column).value.line == 1 + Lines(text, position)
    decreases position - i
  {
    if i < position {
      if IsBreak(text[i]) {
        if i + 1 < |text| {
          var partner := if text[i] == LF then CR else LF;
          assert Lines(text, i + 1) == Lines(text, i) + 1;
          if text[i + 1] == partner {
            assert !EndsLine(text, i + 1);
            assert Lines(text, i + 2) == Lines(text, i + 1);
            WalkLines(text, i + 2, position, line + 1, 1);
          } else {
            WalkLines(text, i + 1, position, line + 1, 1);
          }
        }
      } else {
        assert Lines(text, i + 1) == Lines(text, i);
        WalkLines(text, i + 1, position, line, column + 1);
      }
    }
  }

  /** A text without line ends before the position is a single line. */
  lemma SingleLine(text: seq<CodeUnit>, position: Int32)
    requires 0 <= position as int <= |text|
    requires forall k | 0 <= k < position as int :: !IsBreak(text[k])
    ensures TextCordOf(text, position) == Ok(TextCord(1, position as int + 1))
  {
    WalkPlain(text, 0, position as int, position as int, 1);
  }

  /** Over code units that end no line, only the column moves. */
  lemma {:induction false} WalkPlain(text: seq<CodeUnit>, i: nat, p: nat, position: nat, column: int)
    requires i <= p <= position && p <= |text|
    requires forall k | i <= k < p :: !IsBreak(text[k])
    ensures Walk(text, i, position, 1, column) == Walk(text, p, position, 1, column + p - i)
    decreases p - i
  {
    if i < p {
      WalkPlain(text, i + 1, p, position, column + 1);
    }
  }

  //-------------------------------------------------------------------------
  // A line end as the last code unit
  //-------------------------------------------------------------------------

  /** As written, the loop reads the code unit after a line end even when
      the line end is the last code unit of the text: the position just
      past a text ending with LF has no line and column. */
  lemma EndingLineEndFails(t: seq<CodeUnit>, position: Int32)
    requires forall k | 0 <= k < |t| :: !IsBreak(t[k])
    requires position as int == |t| + 1
    ensures TextCordOf(t + [LF], position) == Err(IndexOutOfRange)
  {
    var text := t + [LF];
    WalkPlain(text, 0, |t|, position as int, 1);
  }

  /** The loop as evidently intended: the code unit after a line end is
      examined only when there is one. */
  function WalkGuarded(text: seq<CodeUnit>, i: nat, position: int, line: int, column: int): Result<TextCord>
    decreases position - i
  {
    if position <= i then Ok(TextCord(line, column))
    else if |text| <= i then Err(IndexOutOfRange)
    else if IsBreak(text[i]) then
      var partner := if text[i] == LF then CR else LF;
      WalkGuarded(text, if i + 1 < |text| && text[i + 1] == partner then i + 2 else i + 1, position, line + 1, 1)
    else WalkGuarded(text, i + 1, position, line, column + 1)
  }

  function TextCordGuarded(text: seq<CodeUnit>, position: Int32): Result<TextCord> {
    if position < 0 then Err(ArgumentOutOfRange) else WalkGuarded(text, 0, position as int, 1, 1)
  }

  /** Guarded, every position from 0 up to and including the end of the
      text has a line and a column, and wherever the code as written gives
      one, the guarded loop gives the same. */
  lemma GuardedTotal(text: seq<CodeUnit>, position: Int32)
    ensures 0 <= position as int <= |text| <==> TextCordGuarded(text, position).Ok?
    ensures TextCordOf(text, position).Ok? ==> TextCordGuarded(text, position) == TextCordOf(text, position)
  {
    if 0 <= position {
      GuardedWalk(text, 0, position as int, 1, 1);
    }
  }

  lemma {:induction false} GuardedWalk(text: seq<CodeUnit>, i: nat, position: int, line: int, column: int)
    requires i <= |text|
    ensures position <= |text| <==> WalkGuarded(text, i, position, line, column).Ok?
    ensures Walk(text, i, position, line, column).Ok? ==>
      WalkGuarded(text, i, position, line, column) == Walk(text, i, position, line, column)
    decreases position - i
  {
    if i < position && i < |text| {
      var partner := if text[i] == LF then CR else LF;
      if IsBreak(text[i]) {
        GuardedWalk(text, if i + 1 < |text| && text[i + 1] == partner then i + 2 else i + 1, position, line + 1, 1);
      } else {
        GuardedWalk(text, i + 1, position, line, column + 1);
      }
    }
  }

  /** The guarded loop places the position past a final LF at the start
      of the next line. */
  lemma GuardedEndingLineEnd(t: seq<CodeUnit>, position: Int32)
    requires forall k | 0 <= k < |t| :: !IsBreak(t[k])
    requires position as int == |t| + 1
    ensures TextCordGuarded(t + [LF], position) == Ok(TextCord(2, 1))
  {
    var text := t + [LF];
    GuardedPlain(text, 0, |t|, position as int, 1);
  }

  lemma {:induction false} GuardedPlain(text: seq<CodeUnit>, i: nat, p: nat, position: nat, column: int)
    requires i <= p <= position && p <= |text|
    requires forall k | i <= k < p :: !IsBreak(text[k])
    ensures WalkGuarded(text, i, position, 1, column) == WalkGuarded(text, p, position, 1, column + p - i)
    decreases p - i
  {
    if i < p {
      GuardedPlain(text, i + 1, p, position, column + 1);
    }
  }
}
