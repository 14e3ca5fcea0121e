/** What the help-text layout promises: wrapped lines keep within the wrap column (one
    column more on continuation lines), only blanks fall between or after the emitted lines
    (bar a final lone character, which the wrapping loop never reaches), every option entry
    starts its description at the same column, and hidden options leave no entry. */
module HelpProperties {
  import opened Strings
  import opened HelpFormat

  /** The emitted lines lie within `d`, follow each other, and at most two characters lie
      between one line and the next, all of them blanks: none after a break inside a word,
      one or two after a break at a blank or a newline. */
  ghost predicate Ordered(d: string, segs: seq<Segment>)
  {
    && (forall k :: 0 <= k < |segs| ==> segs[k].start <= segs[k].end <= |d|)
    && (forall k :: 0 <= k < |segs| - 1 ==> segs[k].end <= segs[k + 1].start <= segs[k].end + 2)
    && (forall k, p :: 0 <= k < |segs| - 1 && segs[k].end <= p < segs[k + 1].start ==> IsSpace(d[p]))
  }

  /** One step of the wrapping loop, by cases on whether it breaks the line. */
  lemma WrapFromStep(d: string, max: int, i: int, x: int, lineStart: int, lb: int)
    returns (breakAt: int, ls: int)
    requires 0 <= lineStart <= i < |d|
    requires lb == -1 || lineStart <= lb < i
    requires lb == -1 || IsSpace(d[lb])
    ensures var lb' := if IsSpace(d[i]) then i else lb;
      && breakAt == (if x + 1 > max && lb' != -1 then lb'
                     else if (x + 1 > max - 1 && lb' == -1) || i == |d| - 1 then i + 1
                     else if d[i] == '\n' then i
                     else -1)
      && (breakAt == -1 ==> WrapFrom(d, max, i, x, lineStart, lb) == WrapFrom(d, max, i + 1, x + 1, lineStart, lb'))
      && (breakAt != -1 ==>
            && lineStart <= breakAt <= ls <= breakAt + 2 && lineStart < ls <= |d|
            && (forall p :: breakAt <= p < ls ==> IsSpace(d[p]))
            && WrapFrom(d, max, i, x, lineStart, lb) == [Segment(lineStart, breakAt)] + WrapFrom(d, max, ls + 1, 0, ls, -1))
  {
    var x' := x + 1;
    var c := d[i];
    var lb' := if IsSpace(c) then i else lb;
    breakAt :=
      if x' > max && lb' != -1 then lb'
      else if (x' > max - 1 && lb' == -1) || i == |d| - 1 then i + 1
      else if c == '\n' then i
      else -1;
    var nextLineStart := if x' > max && lb' != -1 then lb' + 1 else i + 1;
    ls := if nextLineStart < |d| && IsSpace(d[nextLineStart]) then nextLineStart + 1 else nextLineStart;
    if breakAt != -1 {
      WrapFromBreak(d, max, i, x, lineStart, lb, breakAt, nextLineStart, ls);
    } else {
      WrapFromContinue(d, max, i, x, lineStart, lb);
    }
  }

  /** The wrapping loop at a position where the line goes on. */
  lemma WrapFromContinue(d: string, max: int, i: int, x: int, lineStart: int, lb: int)
    requires 0 <= lineStart <= i < |d|
    requires lb == -1 || lineStart <= lb < i
    requires var lb' := if IsSpace(d[i]) then i else lb;
      !(x + 1 > max && lb' != -1) && !((x + 1 > max - 1 && lb' == -1) || i == |d| - 1) && d[i] != '\n'
    ensures WrapFrom(d, max, i, x, lineStart, lb) == WrapFrom(d, max, i + 1, x + 1, lineStart, if IsSpace(d[i]) then i else lb)
  {
  }

  /** One step of the wrapping loop, without saying where it breaks. */
  lemma WrapFromCases(d: string, max: int, i: int, x: int, lineStart: int, lb: int)
    returns (breakAt: int, ls: int)
    requires 0 <= lineStart <= i < |d|
    requires lb == -1 || lineStart <= lb < i
    requires lb == -1 || IsSpace(d[lb])
    ensures breakAt == -1 ==> WrapFrom(d, max, i, x, lineStart, lb)
                              == WrapFrom(d, max, i + 1, x + 1, lineStart, if IsSpace(d[i]) then i else lb)
    ensures breakAt != -1 ==>
              && lineStart <= breakAt <= ls <= breakAt + 2 && lineStart < ls <= |d|
              && (forall p :: breakAt <= p < ls ==> IsSpace(d[p]))
              && WrapFrom(d, max, i, x, lineStart, lb) == [Segment(lineStart, breakAt)] + WrapFrom(d, max, ls + 1, 0, ls, -1)
  {
    breakAt, ls := WrapFromStep(d, max, i, x, lineStart, lb);
  }

  /** After the last emitted line only blanks remain, the final character aside. */
  ghost predicate TailBlank(d: string, segs: seq<Segment>)
  {
    segs != [] ==> forall p :: segs[|segs| - 1].end <= p < |d| - 1 ==> IsSpace(d[p])
  }

  /** `Ordered` and `TailBlank` stated line by line, the way the wrapping loop builds them. */
  ghost predicate Chained(d: string, segs: seq<Segment>)
    decreases |segs|
  {
    segs == [] ||
    (&& segs[0].start <= segs[0].end <= |d|
     && (|segs| == 1 ==> forall p :: segs[0].end <= p < |d| - 1 ==> IsSpace(d[p]))
     && (|segs| > 1 ==>
           && Chained(d, segs[1..])
           && segs[0].end <= segs[1].start <= segs[0].end + 2
           && (forall p :: segs[0].end <= p < segs[1].start ==> IsSpace(d[p]))))
  }

  lemma {:induction false} ChainedIsOrdered(d: string, segs: seq<Segment>)
    requires Chained(d, segs)
    ensures Ordered(d, segs) && TailBlank(d, segs)
    decreases |segs|
  {
    if |segs| > 1 {
      var rest := segs[1..];
      ChainedIsOrdered(d, rest);
      assert segs[|segs| - 1] == rest[|rest| - 1];
      forall k | 0 <= k < |segs| - 1
        ensures segs[k].end <= segs[k + 1].start <= segs[k].end + 2
        ensures forall p :: segs[k].end <= p < segs[k + 1].start ==> IsSpace(d[p])
      {
        if k > 0 {
          assert segs[k] == rest[k - 1] && segs[k + 1] == rest[k];
        }
      }
      forall k | 0 <= k < |segs|
        ensures segs[k].start <= segs[k].end <= |d|
      {
        if k > 0 {
          assert segs[k] == rest[k - 1];
        }
      }
    }
  }

  /** A line break of the wrapping loop keeps the layout chained. */
  lemma LayoutBreak(d: string, segs: seq<Segment>, lineStart: int, breakAt: int, ls: int, rest: seq<Segment>)
    requires 0 <= lineStart <= breakAt <= ls <= breakAt + 2 && ls <= |d|
    requires segs == [Segment(lineStart, breakAt)] + rest
    requires forall p :: breakAt <= p < ls ==> IsSpace(d[p])
    requires Chained(d, rest)
    requires ls + 1 < |d| ==> rest != [] && rest[0].start == ls
    requires rest != [] ==> ls + 1 < |d|
    ensures Chained(d, segs)
  {
    assert segs[0] == Segment(lineStart, breakAt) && segs[1..] == rest;
  }

  /** The loop emits a line exactly when it has characters left, and its first line begins at
      the current line start. */
  lemma {:induction false} WrapFromStarts(d: string, max: int, i: int, x: int, lineStart: int, lb: int)
    requires 0 <= lineStart <= i
    requires lb == -1 || lineStart <= lb < i
    requires lb == -1 || (lb < |d| && IsSpace(d[lb]))
    ensures var segs := WrapFrom(d, max, i, x, lineStart, lb);
      && (i < |d| <==> segs != [])
      && (segs != [] ==> segs[0].start == lineStart)
    decreases |d| - lineStart, |d| - i
  {
    if i < |d| {
      var breakAt, ls := WrapFromCases(d, max, i, x, lineStart, lb);
      if breakAt == -1 {
        WrapFromStarts(d, max, i + 1, x + 1, lineStart, if IsSpace(d[i]) then i else lb);
      }
    }
  }

  lemma {:induction false} WrapFromLayout(d: string, max: int, i: int, x: int, lineStart: int, lb: int)
    requires 0 <= lineStart <= i
    requires lb == -1 || lineStart <= lb < i
    requires lb == -1 || (lb < |d| && IsSpace(d[lb]))
    ensures Chained(d, WrapFrom(d, max, i, x, lineStart, lb))
    decreases |d| - lineStart, |d| - i
  {
    if i < |d| {
      var breakAt, ls := WrapFromCases(d, max, i, x, lineStart, lb);
      if breakAt != -1 {
        LayoutAfterBreak(d, max, WrapFrom(d, max, i, x, lineStart, lb), lineStart, breakAt, ls);
      } else {
        WrapFromLayout(d, max, i + 1, x + 1, lineStart, if IsSpace(d[i]) then i else lb);
      }
    }
  }

  /** The break case of `WrapFromLayout`: the line broken off, then the lines from the new start. */
  lemma {:induction false} LayoutAfterBreak(d: string, max: int, segs: seq<Segment>, lineStart: int, breakAt: int, ls: int)
    requires 0 <= lineStart <= breakAt <= ls <= breakAt + 2 && lineStart < ls <= |d|
    requires forall p :: breakAt <= p < ls ==> IsSpace(d[p])
    requires segs == [Segment(lineStart, breakAt)] + WrapFrom(d, max, ls + 1, 0, ls, -1)
    ensures Chained(d, segs)
    decreases |d| - lineStart, 0
  {
    var rest := WrapFrom(d, max, ls + 1, 0, ls, -1);
    WrapFromLayout(d, max, ls + 1, 0, ls, -1);
    WrapFromStarts(d, max, ls + 1, 0, ls, -1);
    LayoutBreak(d, segs, lineStart, breakAt, ls, rest);
  }

  /** Every emitted line holds at most `max` characters, continuation lines one more. */
  ghost predicate WithinWidth(max: int, segs: seq<Segment>)
  {
    forall k :: 0 <= k < |segs| ==> segs[k].end - segs[k].start <= max + (if segs[k].start == 0 then 0 else 1)
  }

  /** The line a step of the wrapping loop breaks off is within the width. */
  lemma BreakWithinWidth(max: int, i: int, x: int, lineStart: int, lb': int, isLast: bool, isNewline: bool, breakAt: int)
    requires max >= 1
    requires 0 <= lineStart <= i
    requires lb' == -1 || lineStart <= lb' <= i
    requires x == i - lineStart - (if lineStart == 0 then 0 else 1)
    requires x <= max && (lb' == -1 ==> x <= max - 1)
    requires breakAt == (if x + 1 > max && lb' != -1 then lb'
                         else if (x + 1 > max - 1 && lb' == -1) || isLast then i + 1
                         else if isNewline then i
                         else -1)
    requires breakAt != -1
    ensures breakAt - lineStart <= max + (if lineStart == 0 then 0 else 1)
  {
  }

  lemma WithinWidthCons(max: int, s: Segment, rest: seq<Segment>)
    requires WithinWidth(max, rest)
    requires s.end - s.start <= max + (if s.start == 0 then 0 else 1)
    ensures WithinWidth(max, [s] + rest)
  {
    var segs := [s] + rest;
    forall k | 0 < k < |segs|
      ensures segs[k].end - segs[k].start <= max + (if segs[k].start == 0 then 0 else 1)
    {
      assert segs[k] == rest[k - 1];
    }
  }

  lemma {:induction false} WrapFromWidths(d: string, max: int, i: int, x: int, lineStart: int, lb: int)
    requires max >= 1
    requires 0 <= lineStart <= i
    requires lb == -1 || lineStart <= lb < i
    requires x == i - lineStart - (if lineStart == 0 then 0 else 1)
    requires x <= max && (lb == -1 ==> x <= max - 1)
    requires lineStart == 0 || lineStart < i
    requires lb == -1 || (lb < |d| && IsSpace(d[lb]))
    ensures WithinWidth(max, WrapFrom(d, max, i, x, lineStart, lb))
    decreases |d| - lineStart, |d| - i
  {
    if i < |d| {
      var lb' := if IsSpace(d[i]) then i else lb;
      var breakAt, ls := WrapFromStep(d, max, i, x, lineStart, lb);
      if breakAt != -1 {
        BreakWithinWidth(max, i, x, lineStart, lb', i == |d| - 1, d[i] == '\n', breakAt);
        WidthsAfterBreak(d, max, WrapFrom(d, max, i, x, lineStart, lb), lineStart, breakAt, ls);
      } else {
        WrapFromWidths(d, max, i + 1, x + 1, lineStart, lb');
      }
    }
  }

  /** The break case of `WrapFromWidths`: the line broken off, then the lines from the new start. */
  lemma {:induction false} WidthsAfterBreak(d: string, max: int, segs: seq<Segment>, lineStart: int, breakAt: int, ls: int)
    requires max >= 1 && 0 <= lineStart <= breakAt && lineStart < ls <= |d|
    requires breakAt - lineStart <= max + (if lineStart == 0 then 0 else 1)
    requires segs == [Segment(lineStart, breakAt)] + WrapFrom(d, max, ls + 1, 0, ls, -1)
    ensures WithinWidth(max, segs)
    decreases |d| - lineStart, 0
  {
    WrapFromWidths(d, max, ls + 1, 0, ls, -1);
    WithinWidthCons(max, Segment(lineStart, breakAt), WrapFrom(d, max, ls + 1, 0, ls, -1));
  }

  /** The state of the `wrapText` loop: the text written so far, followed by what the loop
      emits from here on, is the wrapped description. */
  ghost predicate WrapLoop(d: string, max: int, indent: nat, target: string, text: string,
                           i: int, x: int, lineStart: int, lb: int)
  {
    && 0 <= lineStart <= i && lineStart <= |d|
    && (lb == -1 || (lineStart <= lb < i && lb < |d| && IsSpace(d[lb])))
    && text + Render(d, WrapFrom(d, max, i, x, lineStart, lb), indent) == target
  }

  /** The `wrapText` loop starts with the padded name column written. */
  lemma WrapLoopStart(names: string, width: nat, d: string)
    ensures var prefix := WrapPrefix(names, width);
      WrapLoop(d, WrapColumn - |prefix|, |prefix|, Wrapped(names, width, d), prefix, 0, 0, 0, -1)
  {
  }

  /** When the loop has run past the description, everything has been written. */
  lemma WrapLoopEnd(d: string, max: int, indent: nat, target: string, text: string,
                    i: int, x: int, lineStart: int, lb: int)
    requires WrapLoop(d, max, indent, target, text, i, x, lineStart, lb) && i >= |d|
    ensures text == target
  {
  }

  /** A turn of the `wrapText` loop that breaks nowhere. */
  lemma WrapLoopContinue(d: string, max: int, indent: nat, target: string, text: string,
                         i: int, x: int, lineStart: int, lb: int, i': int, x': int, lb': int)
    requires WrapLoop(d, max, indent, target, text, i, x, lineStart, lb) && i < |d|
    requires i' == i + 1 && x' == x + 1 && lb' == if IsSpace(d[i]) then i else lb
    requires !(x' > max && lb' != -1) && !((x' > max - 1 && lb' == -1) || i == |d| - 1) && d[i] != '\n'
    ensures WrapLoop(d, max, indent, target, text, i', x', lineStart, lb')
  {
    var _, _ := WrapFromStep(d, max, i, x, lineStart, lb);
  }

  /** A turn of the `wrapText` loop that ends a line at `breakAt`. */
  lemma WrapLoopBreak(d: string, max: int, indent: nat, target: string, text: string,
                      i: int, x: int, lineStart: int, lb: int, breakAt: int, nextLineStart: int,
                      text': string, i': int, lineStart': int)
    requires WrapLoop(d, max, indent, target, text, i, x, lineStart, lb) && i < |d|
    requires var lb' := if IsSpace(d[i]) then i else lb;
      if x + 1 > max && lb' != -1 then breakAt == lb' && nextLineStart == lb' + 1
      else if (x + 1 > max - 1 && lb' == -1) || i == |d| - 1 then breakAt == i + 1 && nextLineStart == i + 1
      else d[i] == '\n' && breakAt == i && nextLineStart == i + 1
    requires lineStart <= breakAt <= |d| && 0 <= nextLineStart <= |d|
    requires text' == (text + (if lineStart > 0 then Spaces(indent) else "")) + (d[lineStart..breakAt] + "\n")
    requires lineStart' == if nextLineStart < |d| && IsSpace(d[nextLineStart]) then nextLineStart + 1 else nextLineStart
    requires i' == lineStart' + 1
    ensures WrapLoop(d, max, indent, target, text', i', 0, lineStart', -1)
  {
    var tail := WrapFrom(d, max, i', 0, lineStart', -1);
    var indentation := if lineStart > 0 then Spaces(indent) else "";
    var line := d[lineStart..breakAt] + "\n";
    WrapFromBreak(d, max, i, x, lineStart, lb, breakAt, nextLineStart, lineStart');
    RenderFirst(d, Segment(lineStart, breakAt), tail, indent);
    AppendLine(text, indentation, line, Render(d, tail, indent));
  }

  /** The wrapping loop at a position where it ends a line at `breakAt`. */
  lemma WrapFromBreak(d: string, max: int, i: int, x: int, lineStart: int, lb: int,
                      breakAt: int, nextLineStart: int, lineStart': int)
    requires 0 <= lineStart <= i < |d|
    requires lb == -1 || lineStart <= lb < i
    requires var lb' := if IsSpace(d[i]) then i else lb;
      if x + 1 > max && lb' != -1 then breakAt == lb' && nextLineStart == lb' + 1
      else if (x + 1 > max - 1 && lb' == -1) || i == |d| - 1 then breakAt == i + 1 && nextLineStart == i + 1
      else d[i] == '\n' && breakAt == i && nextLineStart == i + 1
    requires lineStart' == if nextLineStart < |d| && IsSpace(d[nextLineStart]) then nextLineStart + 1 else nextLineStart
    ensures 0 <= lineStart' && WrapFrom(d, max, i, x, lineStart, lb) == [Segment(lineStart, breakAt)] + WrapFrom(d, max, lineStart' + 1, 0, lineStart', -1)
  {
  }

  /** The first emitted line, then the others. */
  lemma RenderFirst(d: string, s: Segment, tail: seq<Segment>, indent: nat)
    requires s.start <= s.end <= |d|
    requires forall k :: 0 <= k < |tail| ==> tail[k].start <= tail[k].end <= |d|
    ensures Render(d, [s] + tail, indent)
         == ((if s.start > 0 then Spaces(indent) else "") + (d[s.start..s.end] + "\n")) + Render(d, tail, indent)
  {
    assert ([s] + tail)[0] == s && ([s] + tail)[1..] == tail;
  }

  /** Regrouping an emitted line. */
  lemma AppendLine(before: string, indentation: string, line: string, rest: string)
    ensures ((before + indentation) + line) + rest == before + ((indentation + line) + rest)
  {
  }

  /** A word longer than the line is cut where the line is full, and the next line goes on
      at the very next character: no blank lies between the two lines. */
  lemma WordCutWithoutGap()
    ensures WrapSegments("abcdef", 3) == [Segment(0, 3), Segment(3, 6)]
  {
    var d := "abcdef";
    assert forall p :: 0 <= p < |d| ==> !IsSpace(d[p]) && d[p] != '\n';
    assert WrapFrom(d, 3, 5, 1, 3, -1) == [Segment(3, 6)] + WrapFrom(d, 3, 7, 0, 6, -1);
    assert WrapFrom(d, 3, 4, 0, 3, -1) == WrapFrom(d, 3, 5, 1, 3, -1);
    assert WrapFrom(d, 3, 2, 2, 0, -1) == [Segment(0, 3)] + WrapFrom(d, 3, 4, 0, 3, -1);
    assert WrapFrom(d, 3, 1, 1, 0, -1) == WrapFrom(d, 3, 2, 2, 0, -1);
    assert WrapFrom(d, 3, 0, 0, 0, -1) == WrapFrom(d, 3, 1, 1, 0, -1);
  }

  /** Wrapping `d` emits lines that cover it in order: the first line starts at the first
      character, at most two blanks are skipped between lines (none after a break inside a
      word), and after the last line only blanks remain, except that the last character of
      `d` can be lost when it would have started a line of its own (the loop resumes one
      position past a line start). */
  lemma WrapCoversDescription(d: string, max: int)
    ensures var segs := WrapSegments(d, max);
      && Ordered(d, segs)
      && (d != [] <==> segs != [])
      && (segs != [] ==> segs[0].start == 0)
      && TailBlank(d, segs)
  {
    WrapFromLayout(d, max, 0, 0, 0, -1);
    ChainedIsOrdered(d, WrapSegments(d, max));
    WrapFromStarts(d, max, 0, 0, 0, -1);
  }

  /** With room for at least one character, the first line of an entry ends by the wrap
      column and every continuation line one column later: the loop never examines the first
      character of a continuation line, so that line can hold one character more. */
  lemma WrapLineWidths(names: string, width: nat, d: string)
    requires |WrapPrefix(names, width)| < WrapColumn
    ensures var indent := |WrapPrefix(names, width)|;
      var segs := WrapSegments(d, WrapColumn - indent);
      forall k :: 0 <= k < |segs| ==>
        indent + (segs[k].end - segs[k].start) <= WrapColumn + (if segs[k].start == 0 then 0 else 1)
  {
    var max := WrapColumn - |WrapPrefix(names, width)|;
    WrapFromWidths(d, max, 0, 0, 0, -1);
    assert WrapSegments(d, max) == WrapFrom(d, max, 0, 0, 0, -1);
  }

  lemma {:induction false} WrapFromOneLine(d: string, max: int, i: int, lb: int)
    requires 0 <= i < |d| < max
    requires lb == -1 || (0 <= lb < i && IsSpace(d[lb]))
    requires forall k :: i <= k < |d| - 1 ==> d[k] != '\n'
    ensures WrapFrom(d, max, i, i, 0, lb) == [Segment(0, |d|)]
    decreases |d| - i
  {
    var breakAt, ls := WrapFromStep(d, max, i, i, 0, lb);
    if i < |d| - 1 {
      WrapFromOneLine(d, max, i + 1, if IsSpace(d[i]) then i else lb);
    }
  }

  /** A description shorter than the room beside the name column and without a line feed
      (a final one aside) is emitted whole on the entry's line. */
  lemma OneLineDescription(names: string, width: nat, d: string)
    requires d != []
    requires |d| < WrapColumn - |WrapPrefix(names, width)|
    requires forall k :: 0 <= k < |d| - 1 ==> d[k] != '\n'
    ensures Wrapped(names, width, d) == WrapPrefix(names, width) + d + "\n"
  {
    var max := WrapColumn - |WrapPrefix(names, width)|;
    WrapFromOneLine(d, max, 0, -1);
    assert WrapSegments(d, max) == [Segment(0, |d|)];
    assert d[0..|d|] == d;
    assert Render(d, [Segment(0, |d|)], |WrapPrefix(names, width)|) == d + "\n";
  }

  /** A continuation line of `max + 1` characters, and a lost final character. */
  lemma LongContinuationLine()
    ensures WrapSegments("abcdefgh", 3) == [Segment(0, 3), Segment(3, 7)]
  {
    var d := "abcdefgh";
    assert WrapFrom(d, 3, 4, 0, 3, -1) == WrapFrom(d, 3, 5, 1, 3, -1) == WrapFrom(d, 3, 6, 2, 3, -1)
      == [Segment(3, 7)] + WrapFrom(d, 3, 8, 0, 7, -1);
    assert WrapFrom(d, 3, 0, 0, 0, -1) == WrapFrom(d, 3, 1, 1, 0, -1) == WrapFrom(d, 3, 2, 2, 0, -1)
      == [Segment(0, 3)] + WrapFrom(d, 3, 4, 0, 3, -1);
  }

  /** A forced line break followed by a single character: the character is not emitted. */
  lemma LoneCharacterAfterNewlineDropped()
    ensures Wrapped("-x", 3, "ab\nc") == "  -x  ab\n"
  {
    var d := "ab\nc";
    assert WrapPrefix("-x", 3) == "  -x  ";
    assert WrapFrom(d, 73, 0, 0, 0, -1) == WrapFrom(d, 73, 1, 1, 0, -1) == WrapFrom(d, 73, 2, 2, 0, -1)
      == [Segment(0, 2)] + WrapFrom(d, 73, 4, 0, 3, -1);
    assert d[0..2] == "ab";
    assert WrapSegments(d, 73) == [Segment(0, 2)];
    assert Render(d, [Segment(0, 2)], 6) == "ab\n";
  }

  /** An empty description leaves only the padded name column, without a line feed. */
  lemma EmptyDescription(names: string, width: nat)
    ensures Wrapped(names, width, "") == "  " + PadRight(names, width) + " "
  {
  }

  /** The dashed aliases, each followed by ", ", are the joined aliases and one separator
      more: the two characters the help loop drops. */
  lemma {:induction false} SeparatedIsJoined(names: seq<string>)
    requires names != []
    ensures Separated(names) == JoinNames(names) + ", "
  {
    var init := names[..|names| - 1];
    var last := DashedName(names[|names| - 1]);
    if |names| == 1 {
      assert init == [];
    } else {
      SeparatedIsJoined(init);
      calc {
        Separated(names);
        Separated(init) + (last + ", ");
        (JoinNames(init) + ", ") + (last + ", ");
        (JoinNames(init) + ", " + last) + ", ";
      }
    }
  }

  /** The visible options of a list with one more option. */
  lemma VisibleSnoc(opts: seq<OptionEntry>, o: OptionEntry)
    ensures Visible(opts + [o]) == Visible(opts) + (if o.hidden then [] else [o])
  {
    assert (opts + [o])[..|opts|] == opts;
  }

  /** The visible options of a prefix are a prefix of the visible options. */
  lemma {:induction false} VisiblePrefix(opts: seq<OptionEntry>, k: nat)
    requires k <= |opts|
    ensures |Visible(opts[..k])| <= |Visible(opts)|
    ensures Visible(opts)[..|Visible(opts[..k])|] == Visible(opts[..k])
  {
    if k < |opts| {
      var init := opts[..|opts| - 1];
      assert opts == init + [opts[|opts| - 1]];
      assert init[..k] == opts[..k];
      VisiblePrefix(init, k);
      VisibleSnoc(init, opts[|opts| - 1]);
    } else {
      assert opts[..k] == opts;
    }
  }

  lemma LongestSnoc(strs: seq<string>, str: string)
    ensures Longest(strs + [str]) == if Longest(strs) < |str| then |str| else Longest(strs)
  {
    assert (strs + [str])[..|strs|] == strs;
  }

  lemma ColumnsSnoc(opts: seq<OptionEntry>, o: OptionEntry)
    ensures Columns(opts + [o]) == Columns(opts) + [NamesColumn(o)]
  {
    assert (opts + [o])[..|opts|] == opts;
  }

  /** Visiting one more option: a visible one is the next visible option of the whole list. */
  lemma VisibleStep(opts: seq<OptionEntry>, k: nat)
    requires k < |opts|
    ensures |Visible(opts[..k + 1])| == |Visible(opts[..k])| + (if opts[k].hidden then 0 else 1)
    ensures |Visible(opts[..k + 1])| <= |Visible(opts)|
    ensures !opts[k].hidden ==> Visible(opts)[|Visible(opts[..k])|] == opts[k]
  {
    assert opts[..k + 1] == opts[..k] + [opts[k]];
    VisibleSnoc(opts[..k], opts[k]);
    VisiblePrefix(opts, k + 1);
    if !opts[k].hidden {
      assert Visible(opts)[|Visible(opts[..k])|] == Visible(opts[..k + 1])[|Visible(opts[..k])|];
    }
  }

  /** Visiting one more option in the first help loop. */
  lemma ColumnsStep(opts: seq<OptionEntry>, k: nat)
    requires k < |opts|
    ensures !opts[k].hidden ==> Columns(Visible(opts[..k + 1])) == Columns(Visible(opts[..k])) + [NamesColumn(opts[k])]
    ensures opts[k].hidden ==> Columns(Visible(opts[..k + 1])) == Columns(Visible(opts[..k]))
  {
    assert opts[..k + 1] == opts[..k] + [opts[k]];
    VisibleSnoc(opts[..k], opts[k]);
    if !opts[k].hidden {
      ColumnsSnoc(Visible(opts[..k]), opts[k]);
    } else {
      assert Visible(opts[..k + 1]) == Visible(opts[..k]);
    }
  }

  /** The state of the help loop over the options once the first `k` were visited: `next`
      visible ones were met and the first `next` of the entries `parts` follow `head`. */
  ghost predicate OptionsLoop(opts: seq<OptionEntry>, parts: seq<string>, head: string, k: int, next: int, text: string) {
    && 0 <= k <= |opts|
    && |parts| == |Visible(opts)|
    && next == |Visible(opts[..k])| <= |parts|
    && text == head + Concat(parts[..next])
  }

  lemma OptionsLoopStart(opts: seq<OptionEntry>, parts: seq<string>, head: string)
    requires |parts| == |Visible(opts)|
    ensures OptionsLoop(opts, parts, head, 0, 0, head)
  {
    assert opts[..0] == [];
    assert parts[..0] == [];
  }

  lemma OptionsLoopEnd(opts: seq<OptionEntry>, parts: seq<string>, head: string, k: int, next: int, text: string)
    requires OptionsLoop(opts, parts, head, k, next, text) && k >= |opts|
    ensures text == head + Concat(parts)
  {
    assert opts[..k] == opts;
    ConcatAll(parts);
  }

  /** A hidden option is skipped. */
  lemma OptionsLoopHidden(opts: seq<OptionEntry>, parts: seq<string>, head: string, k: int, next: int, text: string)
    requires OptionsLoop(opts, parts, head, k, next, text) && k < |opts| && opts[k].hidden
    ensures OptionsLoop(opts, parts, head, k + 1, next, text)
  {
    VisibleStep(opts, k);
  }

  /** A visible option is the `next`-th visible one: the one whose name column the first
      loop built and whose entry comes next. */
  lemma OptionsLoopVisible(opts: seq<OptionEntry>, parts: seq<string>, head: string, k: int, next: int, text: string)
    requires OptionsLoop(opts, parts, head, k, next, text) && k < |opts| && !opts[k].hidden
    ensures next < |parts| && Visible(opts)[next] == opts[k]
    ensures Columns(Visible(opts))[next] == NamesColumn(opts[k])
  {
    VisibleStep(opts, k);
  }

  /** The entry of the visible option that the loop is at. */
  lemma OptionEntryAt(opts: seq<OptionEntry>, width: nat, parts: seq<string>, k: int, next: int)
    requires 0 <= k < |opts| && 0 <= next < |Visible(opts)| && Visible(opts)[next] == opts[k]
    requires parts == OptionEntries(Visible(opts), width)
    ensures parts[next] == Wrapped(NamesColumn(opts[k]), width, opts[k].description)
  {
  }

  /** A visible option gets its entry. */
  lemma OptionsLoopShown(opts: seq<OptionEntry>, parts: seq<string>, head: string, k: int, next: int, text: string,
                         entry: string, k': int, next': int, text': string)
    requires OptionsLoop(opts, parts, head, k, next, text) && k < |opts| && !opts[k].hidden
    requires next < |parts| && entry == parts[next]
    requires k' == k + 1 && next' == next + 1 && text' == text + entry
    ensures OptionsLoop(opts, parts, head, k', next', text')
  {
    VisibleStep(opts, k);
    ConcatAppend(head, parts, next);
  }

  /** One more turn of the help loop over the positional argument definitions. */
  lemma ArgumentsLoopStep(defs: seq<PositionalArgumentDefinition>, width: nat, parts: seq<string>, head: string,
                          k: int, text: string, entry: string)
    requires parts == ArgumentEntries(defs, width)
    requires 0 <= k < |defs| && text == head + Concat(parts[..k])
    requires entry == Wrapped(defs[k].name, width, defs[k].description)
    ensures text + entry == head + Concat(parts[..k + 1])
  {
    assert entry == parts[k];
    ConcatAppend(head, parts, k);
  }

  /** One more turn of the usage loop: the syntax of one more definition. */
  lemma UsageStep(hasOptions: bool, defs: seq<PositionalArgumentDefinition>, k: nat)
    requires k < |defs|
    ensures Usage(hasOptions, defs[..k + 1]) == Usage(hasOptions, defs[..k]) + (" " + defs[k].syntax)
  {
    assert defs[..k + 1][..k] == defs[..k];
  }

  /** Dropping hidden options again changes nothing. */
  lemma {:induction false} VisibleIdempotent(opts: seq<OptionEntry>)
    ensures Visible(Visible(opts)) == Visible(opts)
  {
    if opts != [] {
      var init := opts[..|opts| - 1];
      var o := opts[|opts| - 1];
      VisibleIdempotent(init);
      if o.hidden {
        assert Visible(opts) == Visible(init) + [] == Visible(init);
      } else {
        var v := Visible(init) + [o];
        assert Visible(opts) == v;
        assert v[..|v| - 1] == Visible(init) && v[|v| - 1] == o;
        assert Visible(v) == Visible(Visible(init)) + [o];
      }
    }
  }

  /** No option appears in the help text exactly when all of them are hidden. */
  lemma {:induction false} NoVisibleOptions(opts: seq<OptionEntry>)
    ensures Visible(opts) == [] <==> forall k :: 0 <= k < |opts| ==> opts[k].hidden
  {
    if opts != [] {
      var init := opts[..|opts| - 1];
      NoVisibleOptions(init);
      assert forall k :: 0 <= k < |init| ==> init[k] == opts[k];
    }
  }

  /** Hidden options contribute nothing: as long as one option is visible, the help text is
      the one of the visible options alone. (When all are hidden the usage line still says
      ` [options]` and the `Options:` heading still appears.) */
  lemma HiddenOptionsOmitted(opts: seq<OptionEntry>, description: string, defs: seq<PositionalArgumentDefinition>)
    requires Visible(opts) != []
    ensures HelpText(opts, description, defs) == HelpText(Visible(opts), description, defs)
  {
    VisibleIdempotent(opts);
    assert opts != [];
    assert ColumnWidth(Visible(opts)) == ColumnWidth(opts);
    assert OptionsBlock(Visible(Visible(opts)), ColumnWidth(opts)) == OptionsBlock(Visible(opts), ColumnWidth(opts));
  }

  /** The name column is one wider than the longest visible entry, so every visible option's
      description starts at the same column, after at least two blanks. */
  lemma EntriesAligned(opts: seq<OptionEntry>)
    ensures var width := ColumnWidth(opts);
      forall k :: 0 <= k < |Visible(opts)| ==>
        && |WrapPrefix(NamesColumn(Visible(opts)[k]), width)| == width + 3
        && |NamesColumn(Visible(opts)[k])| < width
  {
    var cols := Columns(Visible(opts));
    forall k | 0 <= k < |Visible(opts)|
      ensures |NamesColumn(Visible(opts)[k])| < ColumnWidth(opts)
    {
      assert cols[k] == NamesColumn(Visible(opts)[k]);
    }
  }

  /** One dash for a one-letter alias, two for a longer one, and ` <value name>` after them. */
  lemma NamesColumnExample()
    ensures NamesColumn(OptionEntry(["o", "output"], "file", "", false)) == "-o, --output <file>"
    ensures NamesColumn(OptionEntry(["verbose"], "", "", false)) == "--verbose"
  {
  }

  /** The options block of a single visible option whose description fits on one line. */
  lemma OneLineBlock(o: OptionEntry, width: nat)
    requires o.description != []
    requires |o.description| < WrapColumn - |WrapPrefix(NamesColumn(o), width)|
    requires forall k :: 0 <= k < |o.description| - 1 ==> o.description[k] != '\n'
    ensures OptionsBlock([o], width) == WrapPrefix(NamesColumn(o), width) + o.description + "\n"
  {
    OneLineDescription(NamesColumn(o), width, o.description);
    ConcatOne(OptionEntries([o], width));
  }

  /** The entry of the help option: its aliases, two blanks, its description. */
  lemma HelpOptionEntry(o: OptionEntry)
    requires o == OptionEntry(["h", "help"], "", "Displays this help.", false)
    ensures ColumnWidth([o]) == 11
    ensures OptionsBlock([o], 11) == "  -h, --help  " + "Displays this help." + "\n"
  {
    assert NamesColumn(o) == "-h, --help";
    assert Visible([o]) == [o];
    assert Columns([o]) == ["-h, --help"];
    assert WrapPrefix("-h, --help", 11) == "  -h, --help  ";
    OneLineBlock(o, 11);
  }

  /** The usage line of a parser with options and no positional argument definitions. */
  lemma UsageWithOptionsOnly()
    ensures UsageLine(true, []) == "Usage: " + ("[executable name]" + " [options]") + "\n"
  {
    assert Usage(true, []) == "[executable name]" + " [options]";
  }

  /** Without an application description or positional arguments, the help text is the usage
      line, a blank line, the `Options:` heading and the entries. */
  lemma HelpWithoutArguments(opts: seq<OptionEntry>)
    requires opts != []
    ensures HelpText(opts, "", []) == UsageLine(true, []) + "\n" + "Options:\n" + OptionsBlock(Visible(opts), ColumnWidth(opts))
  {
  }

  /** The help text of a parser holding only the help option: the usage line announces
      options, a blank line follows, then the heading and the one entry. */
  lemma HelpOptionOnly(o: OptionEntry)
    requires o == OptionEntry(["h", "help"], "", "Displays this help.", false)
    ensures HelpText([o], "", [])
         == "Usage: " + ("[executable name]" + " [options]") + "\n" + "\n" + "Options:\n"
            + ("  -h, --help  " + "Displays this help." + "\n")
  {
    HelpOptionEntry(o);
    UsageWithOptionsOnly();
    HelpWithoutArguments([o]);
    assert Visible([o]) == [o];
  }
}
