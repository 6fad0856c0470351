/**
 Enclosing lines in a block and removing paired brackets, autoclose.c.
 */
module AutocloseBlock {
  import opened Scintilla

  // ----- Enclosing

  /** A line is another one moved right by `shift` columns. */
  predicate MovedBy(from: string, to: string, shift: int, tabs: Tabs) {
    Indentation(to, tabs) == Indentation(from, tabs) + shift && Body(to) == Body(from)
  }

  /** Lines `s` to `t`, without `t`, were put into a block and moved right by `width`. */
  ghost predicate Encloses(doc: Doc, doc': Doc, s: nat, t: nat, tabs: Tabs, width: int) {
    && s < t <= |doc| && |doc'| == |doc| + 2
    && doc'[..s] == doc[..s]
    && doc'[s] == doc[s][..WhiteLen(doc[s])] + "{"
    && (forall k | s <= k < t :: MovedBy(doc[k], doc'[k + 1], width, tabs))
    && Indentation(doc'[t + 1], tabs) == Indentation(doc[s], tabs) && Body(doc'[t + 1]) == "}"
    && doc'[t + 2..] == doc[t..]
  }

  /** The document after the opening bracket was put on its own line. */
  function Opened(doc: Doc, s: nat): Doc
    requires s < |doc|
  {
    SplitAt(doc, s, WhiteLen(doc[s]), "{", "")
  }

  /** Where the block ends: the selection's end is looked up without the two characters that were inserted before it. */
  function BlockEnd(doc: Doc, s: nat, end: nat): (t: nat)
    requires s < |doc|
    ensures s < t <= |doc|
  {
    var line := LineOf(Opened(doc, s), end);
    if line < s + 1 then s + 1 else line
  }

  predicate InDocument(doc: Doc, pos: nat)
    requires doc != []
  {
    pos <= PositionOf(doc, |doc| - 1) + |doc[|doc| - 1]|
  }

  lemma ColumnOf(doc: Doc, pos: nat)
    requires doc != [] && InDocument(doc, pos)
    ensures PositionOf(doc, LineOf(doc, pos)) <= pos <= PositionOf(doc, LineOf(doc, pos)) + |doc[LineOf(doc, pos)]|
  {
    LineFromRange(doc, pos, 0);
  }

  /** Blanks and a bracket are indented like the line they were taken from. */
  lemma WhiteBracket(s: string, bracket: string, tabs: Tabs, col: nat)
    requires bracket == "{" || bracket == "}"
    ensures var line := s[..WhiteLen(s)] + bracket;
      Columns(line, tabs, col) == Columns(s, tabs, col) && WhiteLen(line) == WhiteLen(s) && Body(line) == bracket
  {
    hide WhiteLen, Columns;
    BracketWhite(s, bracket);
    BracketColumns(s, bracket, tabs, col);
  }

  lemma {:induction false} BracketWhite(s: string, bracket: string)
    requires bracket == "{" || bracket == "}"
    ensures WhiteLen(s[..WhiteLen(s)] + bracket) == WhiteLen(s)
  {
    var line := s[..WhiteLen(s)] + bracket;
    if s != "" && IsBlank(s[0]) {
      assert line[1..] == s[1..][..WhiteLen(s[1..])] + bracket;
      BracketWhite(s[1..], bracket);
    } else {
      assert line == bracket;
    }
  }

  lemma {:induction false} BracketColumns(s: string, bracket: string, tabs: Tabs, col: nat)
    requires bracket == "{" || bracket == "}"
    ensures Columns(s[..WhiteLen(s)] + bracket, tabs, col) == Columns(s, tabs, col)
  {
    var line := s[..WhiteLen(s)] + bracket;
    if s != "" && IsBlank(s[0]) {
      assert line[1..] == s[1..][..WhiteLen(s[1..])] + bracket;
      BracketColumns(s[1..], bracket, tabs, if s[0] == '\t' && tabs.width > 0 then NextTab(col, tabs.width) else col + 1);
    } else {
      assert line == bracket;
    }
  }

  lemma BodyOfBody(s: string)
    ensures Body(Body(s)) == Body(s)
  {
  }

  lemma SameIndentation(s: string, n: nat, tabs: Tabs)
    requires Indentation(s, tabs) == n
    ensures SetIndentation(s, n, tabs) == s
  {
  }

  /** The opened document line by line. */
  lemma OpenedLines(doc: Doc, s: nat, tabs: Tabs)
    requires s < |doc|
    ensures var doc' := Opened(doc, s);
      && |doc'| == |doc| + 1
      && doc'[..s] == doc[..s]
      && doc'[s] == doc[s][..WhiteLen(doc[s])] + "{"
      && Indentation(doc'[s], tabs) == Indentation(doc[s], tabs)
      && doc'[s + 1] == Body(doc[s])
      && forall k | s + 1 < k < |doc'| :: doc'[k] == doc[k - 1]
  {
    WhiteBracket(doc[s], "{", tabs, 0);
  }

  /** The line that the rest of the first line is on. */
  lemma FirstLine(s: string, n: nat, tabs: Tabs)
    ensures Indentation(SetIndentation(Body(s), n, tabs), tabs) == n && Body(SetIndentation(Body(s), n, tabs)) == Body(s)
  {
    SetIndentationIs(Body(s), n, tabs);
    BodyOfBody(s);
  }

  /** Closing the block after line `t` of a document whose block lines have been moved. */
  ghost predicate HalfEnclosed(doc: Doc, half: Doc, s: nat, i: nat, tabs: Tabs, width: int) {
    && s + 1 < i <= |half| == |doc| + 1
    && half[..s] == doc[..s]
    && half[s] == doc[s][..WhiteLen(doc[s])] + "{"
    && (forall k | s < k < i :: MovedBy(doc[k - 1], half[k], width, tabs))
    && (forall k | i <= k < |half| :: half[k] == doc[k - 1])
  }

  lemma HalfStep(doc: Doc, half: Doc, s: nat, i: nat, tabs: Tabs, width: nat)
    requires HalfEnclosed(doc, half, s, i, tabs, width) && i < |half|
    ensures HalfEnclosed(doc, half[i := SetIndentation(half[i], Indentation(half[i], tabs) + width, tabs)], s, i + 1, tabs, width)
  {
    hide SetIndentation, Indentation, Body, WhiteLen;
    SetIndentationIs(half[i], Indentation(half[i], tabs) + width, tabs);
  }

  lemma FirstHalf(doc: Doc, s: nat, n: nat, tabs: Tabs, width: nat)
    requires s < |doc| && n == Indentation(doc[s], tabs) + width
    ensures var doc' := Opened(doc, s);
      HalfEnclosed(doc, doc'[s + 1 := SetIndentation(doc'[s + 1], n, tabs)], s, s + 2, tabs, width)
  {
    hide SetIndentation, Indentation, Body, WhiteLen, Opened;
    OpenedLines(doc, s, tabs);
    FirstLine(doc[s], n, tabs);
  }

  lemma CloseBlock(doc: Doc, half: Doc, s: nat, t: nat, n: nat, tabs: Tabs, width: nat)
    requires HalfEnclosed(doc, half, s, t + 1, tabs, width) && n == Indentation(doc[s], tabs)
    ensures var split := SplitAt(half, t, |half[t]|, "", "}");
      Encloses(doc, split[t + 1 := SetIndentation(split[t + 1], n, tabs)], s, t, tabs, width)
  {
    hide SetIndentation, Indentation, Body, WhiteLen, MovedBy;
    var split := SplitAt(half, t, |half[t]|, "", "}");
    assert split[t] == half[t] && split[t + 1] == "}";
    SetIndentationIs("}", n, tabs);
    BodyOfBracket();
    var doc' := split[t + 1 := SetIndentation(split[t + 1], n, tabs)];
    assert doc'[..s] == half[..s];
    forall k | s <= k < t
      ensures MovedBy(doc[k], doc'[k + 1], width, tabs)
    {
      assert doc'[k + 1] == half[k + 1];
    }
    assert doc'[t + 2..] == half[t + 1..] == doc[t..];
  }

  lemma BodyOfBracket()
    ensures Body("}") == "}"
  {
    assert WhiteLen("}") == 0;
  }

  /** Enclosing adds the two brackets and no other text, and both are as far in as the first line was. */
  lemma EnclosingAddsBrackets(doc: Doc, doc': Doc, s: nat, t: nat, tabs: Tabs, width: int)
    requires Encloses(doc, doc', s, t, tabs, width)
    ensures InkAll(doc') == InkAll(doc[..s]) + "{" + InkAll(doc[s..t]) + "}" + InkAll(doc[t..])
    ensures Indentation(doc'[s], tabs) == Indentation(doc'[t + 1], tabs) == Indentation(doc[s], tabs)
  {
    hide Indentation, Body, Ink, InkAll;
    WhiteBracket(doc[s], "{", tabs, 0);
    IndentationIs(doc'[s], doc[s], tabs);
    BracketInk(doc'[s], "{");
    BracketInk(doc'[t + 1], "}");
    var block := doc'[s + 1..t + 1];
    forall i | 0 <= i < |block|
      ensures Body(block[i]) == Body(doc[s..t][i])
    {
      assert MovedBy(doc[s + i], doc'[s + i + 1], width, tabs);
    }
    InkBodies(block, doc[s..t]);
    assert doc' == doc[..s] + [doc'[s]] + block + [doc'[t + 1]] + doc[t..];
    InkParts(doc[..s], [doc'[s]], block, [doc'[t + 1]], doc[t..]);
  }

  lemma IndentationIs(a: string, b: string, tabs: Tabs)
    ensures Columns(a, tabs, 0) == Columns(b, tabs, 0) <==> Indentation(a, tabs) == Indentation(b, tabs)
  {
  }

  lemma BracketInk(s: string, bracket: string)
    requires Body(s) == bracket && (bracket == "{" || bracket == "}")
    ensures InkAll([s]) == bracket
  {
    InkBody(s);
    InkOne(s);
    assert bracket[1..] == "";
  }

  /** Past the bracket's line every line begins two characters later. */
  lemma {:induction false} OpenedPositions(doc: Doc, s: nat, k: nat)
    requires s < |doc| && k <= |doc| + 1
    ensures PositionOf(Opened(doc, s), k) ==
      if k <= s then PositionOf(doc, k)
      else if k == s + 1 then PositionOf(doc, s) + WhiteLen(doc[s]) + 2
      else PositionOf(doc, k - 1) + 2
  {
    var doc' := Opened(doc, s);
    if k > 0 {
      OpenedPositions(doc, s, k - 1);
      assert k - 1 < s ==> doc'[k - 1] == doc[k - 1];
      assert k - 1 > s + 1 ==> doc'[k - 1] == doc[k - 2];
    }
  }

  lemma StaleEndUpper(doc: Doc, s: nat, end: nat)
    requires s < |doc| && PositionOf(doc, s) <= end && InDocument(doc, end)
    ensures LineOf(Opened(doc, s), end) <= LineOf(doc, end) + 1 && s <= LineOf(doc, end)
  {
    hide Opened, WhiteLen, InDocument, LineOf;
    var doc' := Opened(doc, s);
    OpenedLength(doc, s);
    var e, line := LineOf(doc, end), LineOf(doc', end);
    InLine(doc, end);
    InLine(doc', end);
    PositionsOrdered(doc, e + 1, s);
    if line > e + 1 {
      OpenedPositions(doc, s, e + 2);
      PositionsAscend(doc', e + 2, line);
    }
  }

  lemma StaleEndLower(doc: Doc, s: nat, end: nat)
    requires s < |doc| && PositionOf(doc, s) <= end && InDocument(doc, end)
    ensures LineOf(doc, end) - 1 <= LineOf(Opened(doc, s), end)
  {
    hide Opened, WhiteLen, InDocument, LineOf;
    var doc' := Opened(doc, s);
    OpenedLength(doc, s);
    var e, line := LineOf(doc, end), LineOf(doc', end);
    InLine(doc, end);
    InLine(doc', end);
    if line + 1 < e {
      OpenedPositions(doc, s, line + 1);
      PositionsAscend(doc, line, e);
      PositionsAscend(doc, line + 1, e);
      WhiteFits(doc, s);
    }
  }

  lemma InLine(doc: Doc, pos: nat)
    requires doc != []
    ensures var l := LineOf(doc, pos); PositionOf(doc, l) <= pos && (l + 1 < |doc| ==> pos < PositionOf(doc, l + 1))
  {
    LineFromRange(doc, pos, 0);
  }

  /** The line that the stale end position is on differs by at most one from the line of the selection's end. */
  lemma StaleEnd(doc: Doc, s: nat, end: nat)
    requires s < |doc| && PositionOf(doc, s) <= end && InDocument(doc, end)
    ensures LineOf(doc, end) - 1 <= LineOf(Opened(doc, s), end) <= LineOf(doc, end) + 1
    ensures s <= LineOf(doc, end)
  {
    hide LineOf, Opened, PositionOf, InDocument;
    StaleEndUpper(doc, s, end);
    StaleEndLower(doc, s, end);
  }

  /**
   Where the block ends, in terms of the document before the insertion: after the line of the
   selection's end if that is at least two characters into its line, and otherwise before that
   line, or before the one above it if that has room for less than the two characters.
   */
  predicate EndsBlock(doc: Doc, s: nat, end: nat, t: nat)
    requires s < |doc|
  {
    var e := LineOf(doc, end);
    t == if e <= s then s + 1
         else if end >= PositionOf(doc, e) + 2 then e + 1
         else if e == s + 1 || end >= PositionOf(doc, e - 1) + 2 then e
         else e - 1
  }

  lemma BlockEndIs(doc: Doc, s: nat, end: nat)
    requires s < |doc| && PositionOf(doc, s) <= end && InDocument(doc, end)
    ensures EndsBlock(doc, s, end, BlockEnd(doc, s, end))
    ensures var e := LineOf(doc, end); s <= e && (e > s ==> e - 1 <= BlockEnd(doc, s, end) <= e + 1)
  {
    hide Opened, WhiteLen, InDocument, LineOf;
    var e := LineOf(doc, end);
    StaleEnd(doc, s, end);
    if e > s {
      OpenedLength(doc, s);
      InLine(doc, end);
      InLine(Opened(doc, s), end);
      OpenedPositions(doc, s, e + 1);
      OpenedPositions(doc, s, e);
      StaleLine(doc, s, end, e);
    }
  }

  lemma SelectionEnds(doc: Doc, start: nat, end: nat)
    requires doc != [] && start <= end && InDocument(doc, end)
    ensures EndsBlock(doc, LineOf(doc, start), end, BlockEnd(doc, LineOf(doc, start), end))
  {
    hide EndsBlock, BlockEnd, LineOf, InDocument;
    InLine(doc, start);
    BlockEndIs(doc, LineOf(doc, start), end);
  }

  /** The line of the stale position, by where the lines of the opened document begin. */
  lemma StaleLine(doc: Doc, s: nat, end: nat, e: nat)
    requires s < e < |doc| && e == LineOf(doc, end) && PositionOf(doc, s) <= end && InDocument(doc, end)
    ensures var line := LineOf(Opened(doc, s), end);
      && (line == e + 1 <==> end >= PositionOf(doc, e) + 2)
      && (e > s + 1 ==> (line >= e <==> end >= PositionOf(doc, e - 1) + 2))
  {
    hide Opened, WhiteLen, InDocument, LineOf;
    var doc' := Opened(doc, s);
    OpenedLength(doc, s);
    var line := LineOf(doc', end);
    StaleEnd(doc, s, end);
    InLine(doc', end);
    OpenedPositions(doc, s, e + 1);
    OpenedPositions(doc, s, e);
    if line < e { PositionsOrdered(doc', line + 1, e); }
    if line >= e { PositionsOrdered(doc', e, line); }
  }

  lemma OpenedLength(doc: Doc, s: nat)
    requires s < |doc|
    ensures |Opened(doc, s)| == |doc| + 1
  {
  }

  lemma WhiteFits(doc: Doc, s: nat)
    requires s < |doc|
    ensures PositionOf(doc, s) + WhiteLen(doc[s]) < PositionOf(doc, s + 1)
  {
  }

  class Block {
    const sci: Sci

    constructor (sci: Sci)
      ensures this.sci == sci
    {
      this.sci := sci;
    }

    /** The special case of enclose_selection for a curly bracket. */
    method EncloseBlock(start: nat, end: nat, indentWidth: nat, whitesmiths: bool, toBeginning: bool)
      requires sci.lines != [] && start <= end && InDocument(sci.lines, end)
      modifies sci
      ensures var s := LineOf(old(sci.lines), start);
        Encloses(old(sci.lines), sci.lines, s, BlockEnd(old(sci.lines), s, end), sci.tabs, if whitesmiths then 0 else indentWidth)
      ensures var s := LineOf(old(sci.lines), start);
        toBeginning ==> sci.caret == PositionOf(old(sci.lines), s) + WhiteLen(old(sci.lines)[s])
      ensures var s := LineOf(old(sci.lines), start);
        EndsBlock(old(sci.lines), s, end, BlockEnd(old(sci.lines), s, end))
    {
      hide EndsBlock, InDocument, Indentation, Body, PositionOf, LineOf, WhiteLen, SetIndentation, MovedBy, HalfEnclosed, Encloses;
      ghost var doc := sci.lines;
      SelectionEnds(doc, start, end);
      var startLine := LineOf(sci.lines, start);
      var startPos := PositionOf(sci.lines, startLine) + WhiteLen(sci.lines[startLine]);
      LineOfColumn(doc, startLine, WhiteLen(doc[startLine]));
      sci.InsertText(startPos, "{", "");
      assert sci.lines == Opened(doc, startLine);
      OpenedLines(doc, startLine, sci.tabs);
      var endLine := LineOf(sci.lines, end);
      var startIndent := Indentation(sci.lines[startLine], sci.tabs);
      SameIndentation(sci.lines[startLine], startIndent, sci.tabs);
      sci.SetLineIndentation(startLine, startIndent);
      assert sci.lines == Opened(doc, startLine);
      var step := if whitesmiths then 0 else indentWidth;
      FirstLine(doc[startLine], startIndent + step, sci.tabs);
      FirstHalf(doc, startLine, startIndent + step, sci.tabs, step);
      sci.SetLineIndentation(startLine + 1, startIndent + step);
      var i := startLine + 2;
      while i <= endLine
        invariant startLine + 2 <= i && (i <= endLine + 1 || i == startLine + 2)
        invariant endLine < |doc| + 1 && |sci.lines| == |doc| + 1
        invariant HalfEnclosed(doc, sci.lines, startLine, i, sci.tabs, step)
      {
        HalfStep(doc, sci.lines, startLine, i, sci.tabs, step);
        var currentIndent := Indentation(sci.lines[i], sci.tabs);
        sci.SetLineIndentation(i, currentIndent + step);
        i := i + 1;
      }
      var textEnd := PositionOf(sci.lines, i - 1) + |sci.lines[i - 1]|;
      LineOfColumn(sci.lines, i - 1, |sci.lines[i - 1]|);
      CloseBlock(doc, sci.lines, startLine, i - 1, startIndent, sci.tabs, step);
      sci.InsertText(textEnd, "", "}");
      sci.SetLineIndentation(i, startIndent);
      if toBeginning { sci.caret := startPos; }
    }

    /**
     improve_indent, for Return typed behind an opening bracket: `complete` tells whether the
     closing bracket is still to be inserted.
     */
    method ImproveIndent(width: nat, whitesmiths: bool, complete: bool) returns (stop: bool)
      requires sci.lines != [] && InDocument(sci.lines, sci.caret)
      modifies sci
      ensures var doc, l := old(sci.lines), LineOf(old(sci.lines), old(sci.caret));
        var col := old(sci.caret) - PositionOf(doc, l);
        && stop == (0 < col <= |doc[l]| && doc[l][col - 1] == '{' && (complete || (col < |doc[l]| && doc[l][col] == '}')))
        && (!stop ==> sci.lines == doc && sci.caret == old(sci.caret))
        && (stop ==> Split(doc, sci.lines, l, col, complete, sci.tabs, if whitesmiths then 0 else width))
        && (stop ==> sci.caret == PositionOf(sci.lines, l + 1) + |sci.lines[l + 1]|)
    {
      hide PositionOf, LineOf, Split, Indentation, SetIndentation;
      ghost var doc := sci.lines;
      ColumnOf(doc, sci.caret);
      var line := LineOf(sci.lines, sci.caret);
      var col := sci.caret - PositionOf(sci.lines, line);
      var text := sci.lines[line];
      stop := col > 0 && text[col - 1] == '{' && (complete || (col < |text| && text[col] == '}'));
      if stop {
        var indent := Indentation(text, sci.tabs);
        var step := if whitesmiths then 0 else width;
        sci.InsertText(sci.caret, "", if complete then "}" else "");
        LineOfColumn(sci.lines, line, col);
        SplitPosition(doc, line, col, if complete then "}" else "");
        sci.InsertText(sci.caret, "", "");
        ghost var twice := sci.lines;
        SplitLines(doc, line, col, complete, sci.tabs, step);
        if whitesmiths {
          sci.SetLineIndentation(line, indent);
          assert sci.lines == twice;
        }
        sci.SetLineIndentation(line + 1, indent + step);
        sci.SetLineIndentation(line + 2, indent);
        sci.caret := PositionOf(sci.lines, line + 1) + |sci.lines[line + 1]|;
      }
    }
  }

  /** A line was split at `col`: an empty line between, indented by `width` more, and the closing bracket below the line's beginning. */
  ghost predicate Split(doc: Doc, doc': Doc, l: nat, col: nat, complete: bool, tabs: Tabs, width: int) {
    && l < |doc| && col <= |doc[l]| && |doc'| == |doc| + 2
    && doc'[..l] == doc[..l] && doc'[l] == doc[l][..col] && doc'[l + 3..] == doc[l + 1..]
    && Body(doc'[l + 1]) == "" && Indentation(doc'[l + 1], tabs) == Indentation(doc[l], tabs) + width
    && Body(doc'[l + 2]) == (if complete then "}" else "") + doc[l][col..]
    && Indentation(doc'[l + 2], tabs) == Indentation(doc[l], tabs)
  }

  /** Splitting adds at most the closing bracket. */
  lemma SplittingKeepsText(doc: Doc, doc': Doc, l: nat, col: nat, complete: bool, tabs: Tabs, width: int)
    requires Split(doc, doc', l, col, complete, tabs, width)
    ensures InkAll(doc') ==
      InkAll(doc[..l]) + Ink(doc[l][..col]) + (if complete then "}" else "") + Ink(doc[l][col..]) + InkAll(doc[l + 1..])
  {
    hide Indentation, Body, InkAll;
    var bracket := if complete then "}" else "";
    var lines := [doc'[l], doc'[l + 1], doc'[l + 2]];
    assert doc' == doc[..l] + lines + doc[l + 1..];
    InkAround(doc[..l], lines, doc[l + 1..]);
    InkThree(doc'[l], doc'[l + 1], doc'[l + 2]);
    InkBody(doc'[l + 1]);
    InkBody(doc'[l + 2]);
    InkConcat(bracket, doc[l][col..]);
    assert Ink("}") == "}" by { assert "}"[1..] == ""; }
  }

  lemma InkAround(a: Doc, b: Doc, c: Doc)
    ensures InkAll(a + b + c) == InkAll(a) + InkAll(b) + InkAll(c)
  {
    hide InkAll;
    InkAllConcat(a + b, c);
    InkAllConcat(a, b);
  }

  lemma InkThree(a: string, b: string, c: string)
    ensures InkAll([a, b, c]) == Ink(a) + Ink(b) + Ink(c)
  {
    hide Ink, InkAll;
    assert [a, b, c] == [a] + [b] + [c];
    InkAllConcat([a] + [b], [c]);
    InkAllConcat([a], [b]);
    InkOne(a);
    InkOne(b);
    InkOne(c);
  }

  lemma {:induction false} PrefixIndentation(s: string, col: nat, tabs: Tabs, from: nat)
    requires 0 < col <= |s| && !IsBlank(s[col - 1])
    ensures Columns(s[..col], tabs, from) == Columns(s, tabs, from)
    decreases |s|
  {
    if IsBlank(s[0]) {
      assert s[..col][1..] == s[1..][..col - 1];
      PrefixIndentation(s[1..], col - 1, tabs, if s[0] == '\t' && tabs.width > 0 then NextTab(from, tabs.width) else from + 1);
    }
  }

  lemma SplitPosition(doc: Doc, l: nat, col: nat, after: string)
    requires l < |doc| && col <= |doc[l]|
    ensures var once := SplitAt(doc, l, col, "", after); once[l] == doc[l][..col] && PositionOf(once, l) == PositionOf(doc, l)
  {
    SamePositions(SplitAt(doc, l, col, "", after), doc, l);
  }

  /** The document after splitting and indenting. */
  lemma SplitLines(doc: Doc, l: nat, col: nat, complete: bool, tabs: Tabs, width: nat)
    requires l < |doc| && 0 < col <= |doc[l]| && doc[l][col - 1] == '{'
    requires complete || (col < |doc[l]| && doc[l][col] == '}')
    ensures var once := SplitAt(doc, l, col, "", if complete then "}" else "");
      var twice := SplitAt(once, l, col, "", "");
      var indent := Indentation(doc[l], tabs);
      && |twice| == |doc| + 2
      && SetIndentation(twice[l], indent, tabs) == twice[l]
      && var done := twice[l + 1 := SetIndentation(twice[l + 1], indent + width, tabs)][l + 2 := SetIndentation(twice[l + 2], indent, tabs)];
         Split(doc, done, l, col, complete, tabs, width)
  {
    hide SetIndentation, Indentation;
    var bottom := (if complete then "}" else "") + doc[l][col..];
    var once := SplitAt(doc, l, col, "", if complete then "}" else "");
    var twice := SplitAt(once, l, col, "", "");
    var indent := Indentation(doc[l], tabs);
    assert twice[l] == doc[l][..col] && twice[l + 1] == "" && twice[l + 2] == bottom;
    assert twice[..l] == doc[..l] && twice[l + 3..] == doc[l + 1..];
    PrefixKeeps(doc[l], col, tabs);
    SetIndentationIs("", indent + width, tabs);
    SetIndentationIs(bottom, indent, tabs);
    assert Body("") == "" && Body(bottom) == bottom by { assert bottom[0] == '}'; }
    SameIndentation(twice[l], indent, tabs);
  }

  lemma PrefixKeeps(s: string, col: nat, tabs: Tabs)
    requires 0 < col <= |s| && s[col - 1] == '{'
    ensures Indentation(s[..col], tabs) == Indentation(s, tabs)
  {
    PrefixIndentation(s, col, tabs, 0);
  }
}
