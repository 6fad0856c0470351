/**
 What the autoclose plugin asks of a Scintilla buffer, as a document of lines that end in "\n".
 A position counts the characters before it, line ends included.
 */
module Scintilla {

  type Doc = seq<string>

  /** Tab width in columns, and whether indentation is made of tabs. */
  datatype Tabs = Tabs(width: nat, use: bool)

  predicate IsBlank(c: char) {
    c == ' ' || c == '\t'
  }

  // ----- Indentation

  /** How many blanks a line begins with. */
  function WhiteLen(s: string): (n: nat)
    ensures n <= |s|
    ensures forall i | 0 <= i < n :: IsBlank(s[i])
    ensures n < |s| ==> !IsBlank(s[n])
  {
    if s != "" && IsBlank(s[0]) then 1 + WhiteLen(s[1..]) else 0
  }

  /** A line without its indentation. */
  function Body(s: string): string {
    s[WhiteLen(s)..]
  }

  /** The next tab stop. */
  function NextTab(col: nat, width: nat): nat
    requires width > 0
  {
    col + width - col % width
  }

  /** The first multiple of the tab width after a column. */
  lemma NextTabIs(col: nat, width: nat)
    requires width > 0
    ensures col < NextTab(col, width) <= col + width && NextTab(col, width) % width == 0
  {
    var q := col / width;
    assert col == q * width + col % width;
    assert NextTab(col, width) == (q + 1) * width;
    MultipleOf(q + 1, width);
  }

  lemma MultipleOf(q: nat, width: nat)
    requires width > 0
    ensures q * width % width == 0
  {
    var d, r := q * width / width, q * width % width;
    assert q * width == d * width + r;
    assert (q - d) * width == r;
    Multiples(q - d, width, r);
  }

  /** The column after a line's indentation that begins at column `col`. */
  function Columns(s: string, tabs: Tabs, col: nat): nat {
    if s == "" || !IsBlank(s[0]) then col
    else Columns(s[1..], tabs, if s[0] == '\t' && tabs.width > 0 then NextTab(col, tabs.width) else col + 1)
  }

  /** SCI_GETLINEINDENTATION */
  function Indentation(s: string, tabs: Tabs): nat {
    Columns(s, tabs, 0)
  }

  /** The blanks that Scintilla makes for an indentation. */
  function Blanks(n: nat, tabs: Tabs): string {
    if n == 0 then ""
    else if tabs.use && tabs.width > 0 && n >= tabs.width then "\t" + Blanks(n - tabs.width, tabs)
    else " " + Blanks(n - 1, tabs)
  }

  /** SCI_SETLINEINDENTATION: a line that has the indentation already keeps its blanks. */
  function SetIndentation(s: string, n: int, tabs: Tabs): string {
    var m := if n < 0 then 0 else n;
    if Indentation(s, tabs) == m then s else Blanks(m, tabs) + Body(s)
  }

  function Repeat(c: char, n: nat): string {
    if n == 0 then "" else [c] + Repeat(c, n - 1)
  }

  /** As many tabs as fit and then spaces. */
  lemma {:induction false} TabsThenSpaces(n: nat, q: nat, r: nat, tabs: Tabs)
    requires tabs.use && r < tabs.width && n == q * tabs.width + r
    ensures Blanks(n, tabs) == Repeat('\t', q) + Repeat(' ', r)
  {
    if q == 0 {
      OnlySpaces(n, tabs);
    } else {
      OneMore(q - 1, tabs.width);
      TabsThenSpaces(n - tabs.width, q - 1, r, tabs);
    }
  }

  lemma OneMore(q: nat, width: nat)
    ensures (q + 1) * width == q * width + width
  {
  }

  /** Where no tab fits, or none is wanted, the blanks are spaces. */
  lemma {:induction false} OnlySpaces(n: nat, tabs: Tabs)
    requires !tabs.use || tabs.width == 0 || n < tabs.width
    ensures Blanks(n, tabs) == Repeat(' ', n)
  {
    if n > 0 { OnlySpaces(n - 1, tabs); }
  }

  lemma TabStop(col: nat, width: nat)
    requires width > 0 && col % width == 0
    ensures NextTab(col, width) == col + width && (col + width) % width == 0
  {
    var q, q' := col / width, (col + width) / width;
    var r := (col + width) % width;
    assert col == q * width && col + width == q' * width + r;
    Multiples(q + 1 - q', width, r);
  }

  /** Only one multiple of `w` is in a range of that length. */
  lemma Multiples(d: int, w: nat, r: nat)
    requires r < w && d * w == r
    ensures r == 0
  {
    assert d >= 1 ==> d * w >= w;
    assert d <= -1 ==> d * w <= 0 - w;
  }

  lemma {:induction false} BlanksColumns(n: nat, tabs: Tabs, col: nat, body: string)
    requires body != "" ==> !IsBlank(body[0])
    requires tabs.width > 0 ==> n < tabs.width || col % tabs.width == 0
    ensures Columns(Blanks(n, tabs) + body, tabs, col) == col + n
    decreases n
  {
    hide NextTab;
    var s := Blanks(n, tabs) + body;
    if n == 0 {
      assert s == body;
    } else if tabs.use && tabs.width > 0 && n >= tabs.width {
      assert s[1..] == Blanks(n - tabs.width, tabs) + body;
      TabStop(col, tabs.width);
      BlanksColumns(n - tabs.width, tabs, col + tabs.width, body);
    } else {
      assert s[1..] == Blanks(n - 1, tabs) + body;
      SpacesColumns(n, tabs, col, body);
    }
  }

  /** The part without tabs. */
  lemma {:induction false} SpacesColumns(n: nat, tabs: Tabs, col: nat, body: string)
    requires body != "" ==> !IsBlank(body[0])
    requires !tabs.use || tabs.width == 0 || n < tabs.width
    ensures Columns(Blanks(n, tabs) + body, tabs, col) == col + n
    decreases n
  {
    var s := Blanks(n, tabs) + body;
    if n == 0 {
      assert s == body;
    } else {
      assert s[1..] == Blanks(n - 1, tabs) + body;
      SpacesColumns(n - 1, tabs, col + 1, body);
    }
  }

  lemma {:induction false} BlanksWhite(n: nat, tabs: Tabs, body: string)
    requires body != "" ==> !IsBlank(body[0])
    ensures Body(Blanks(n, tabs) + body) == body
    decreases n
  {
    var s := Blanks(n, tabs) + body;
    if n == 0 {
      assert s == body;
    } else {
      var m := if tabs.use && tabs.width > 0 && n >= tabs.width then n - tabs.width else n - 1;
      assert s[1..] == Blanks(m, tabs) + body;
      BlanksWhite(m, tabs, body);
      assert s[WhiteLen(s)..] == s[1..][WhiteLen(s[1..])..];
    }
  }

  /** The line has the indentation that was asked for, and its body is untouched. */
  lemma SetIndentationIs(s: string, n: int, tabs: Tabs)
    ensures Indentation(SetIndentation(s, n, tabs), tabs) == if n < 0 then 0 else n
    ensures Body(SetIndentation(s, n, tabs)) == Body(s)
  {
    var m := if n < 0 then 0 else n;
    if Indentation(s, tabs) != m {
      BlanksColumns(m, tabs, 0, Body(s));
      BlanksWhite(m, tabs, Body(s));
    }
  }

  // ----- Positions

  /** SCI_POSITIONFROMLINE */
  function PositionOf(doc: Doc, line: nat): (p: nat)
    requires line <= |doc|
  {
    if line == 0 then 0 else PositionOf(doc, line - 1) + |doc[line - 1]| + 1
  }

  /** SCI_LINEFROMPOSITION, searching from `line` on; the last line has what is past the end. */
  function LineFrom(doc: Doc, pos: nat, line: nat): (l: nat)
    requires line < |doc|
    ensures line <= l < |doc|
    decreases |doc| - line
  {
    if line + 1 < |doc| && PositionOf(doc, line + 1) <= pos then LineFrom(doc, pos, line + 1) else line
  }

  function LineOf(doc: Doc, pos: nat): (l: nat)
    requires doc != []
    ensures l < |doc|
  {
    LineFrom(doc, pos, 0)
  }

  lemma {:induction false} PositionsAscend(doc: Doc, a: nat, b: nat)
    requires a <= b <= |doc|
    ensures PositionOf(doc, a) + (b - a) <= PositionOf(doc, b)
    ensures a < b ==> PositionOf(doc, a) + |doc[a]| < PositionOf(doc, b)
  {
    if a < b {
      PositionsAscend(doc, a, b - 1);
    }
  }

  lemma PositionsOrdered(doc: Doc, a: nat, b: nat)
    requires a <= |doc| && b <= |doc|
    ensures a <= b ==> PositionOf(doc, a) <= PositionOf(doc, b)
  {
    if a <= b { PositionsAscend(doc, a, b); }
  }

  /** A position lies in the last line that begins at or before it. */
  lemma {:induction false} LineFromIs(doc: Doc, pos: nat, from: nat, line: nat)
    requires from <= line < |doc|
    requires PositionOf(doc, line) <= pos && (line + 1 < |doc| ==> pos < PositionOf(doc, line + 1))
    ensures LineFrom(doc, pos, from) == line
    decreases line - from
  {
    if from < line {
      PositionsAscend(doc, from + 1, line);
      LineFromIs(doc, pos, from + 1, line);
    }
  }

  lemma LineOfColumn(doc: Doc, line: nat, col: nat)
    requires line < |doc| && col <= |doc[line]|
    ensures LineOf(doc, PositionOf(doc, line) + col) == line
  {
    LineFromIs(doc, PositionOf(doc, line) + col, 0, line);
  }

  lemma {:induction false} LineFromRange(doc: Doc, pos: nat, from: nat)
    requires from < |doc| && PositionOf(doc, from) <= pos
    ensures var l := LineFrom(doc, pos, from);
      PositionOf(doc, l) <= pos && (l + 1 < |doc| ==> pos < PositionOf(doc, l + 1))
    decreases |doc| - from
  {
    if from + 1 < |doc| && PositionOf(doc, from + 1) <= pos { LineFromRange(doc, pos, from + 1); }
  }

  /** Lines before a change have the positions they had. */
  lemma {:induction false} SamePositions(a: Doc, b: Doc, line: nat)
    requires line <= |a| && line <= |b| && forall i | 0 <= i < line :: a[i] == b[i]
    ensures PositionOf(a, line) == PositionOf(b, line)
  {
    if line > 0 { SamePositions(a, b, line - 1); }
  }

  // ----- Changing the text

  function Cut(s: string, col: nat): string
    requires col < |s|
  {
    s[..col] + s[col + 1..]
  }

  /** Without the character at `col` of `line`. */
  function CutAt(doc: Doc, line: nat, col: nat): Doc
    requires line < |doc| && col < |doc[line]|
  {
    doc[line := Cut(doc[line], col)]
  }

  /** With `before`, a line end and `after` inserted at `col` of `line`. */
  function SplitAt(doc: Doc, line: nat, col: nat, before: string, after: string): Doc
    requires line < |doc| && col <= |doc[line]|
  {
    doc[..line] + [doc[line][..col] + before, after + doc[line][col..]] + doc[line + 1..]
  }

  /** delete_line: the last line has no line end to delete, so that an empty line stays. */
  function WithoutLine(doc: Doc, line: nat): Doc
    requires line < |doc|
  {
    if line + 1 < |doc| then doc[..line] + doc[line + 1..] else doc[line := ""]
  }

  // ----- The document as one text

  /** Lines with a line end each. */
  function Closed(lines: Doc): string
    decreases |lines|
  {
    if lines == [] then "" else Closed(lines[..|lines| - 1]) + lines[|lines| - 1] + "\n"
  }

  /** What follows a line, beginning with that line's end. */
  function Following(lines: Doc): string {
    if lines == [] then "" else "\n" + lines[0] + Following(lines[1..])
  }

  /** The lines with a line end between any two. */
  function Text(doc: Doc): string
    requires doc != []
  {
    doc[0] + Following(doc[1..])
  }

  /** A position counts the characters before the line, line ends included. */
  lemma {:induction false} PositionCounts(doc: Doc, line: nat)
    requires line <= |doc|
    ensures |Closed(doc[..line])| == PositionOf(doc, line)
  {
    if line > 0 {
      assert doc[..line][..line - 1] == doc[..line - 1];
      PositionCounts(doc, line - 1);
    }
  }

  /** The text around one line. */
  lemma {:induction false} TextAround(doc: Doc, line: nat)
    requires line < |doc|
    ensures Text(doc) == Closed(doc[..line]) + (doc[line] + Following(doc[line + 1..]))
  {
    if line == 0 {
      assert Closed(doc[..0]) == "";
    } else {
      TextAround(doc, line - 1);
      assert doc[..line][..line - 1] == doc[..line - 1];
      assert doc[line..][0] == doc[line] && doc[line..][1..] == doc[line + 1..];
      Regroup(Closed(doc[..line - 1]), doc[line - 1], "\n", doc[line], Following(doc[line + 1..]));
    }
  }

  lemma Regroup(a: string, b: string, c: string, d: string, e: string)
    ensures a + (b + (c + d + e)) == (a + b + c) + (d + e)
  {
  }

  /** Inserting before, a line end and after at a position. */
  lemma SplitText(doc: Doc, line: nat, col: nat, before: string, after: string)
    requires line < |doc| && col <= |doc[line]|
    ensures var p := PositionOf(doc, line) + col;
      p <= |Text(doc)| && Text(SplitAt(doc, line, col, before, after)) == Text(doc)[..p] + (before + "\n" + after) + Text(doc)[p..]
  {
    hide Text, Closed, Following;
    var doc' := SplitAt(doc, line, col, before, after);
    PositionCounts(doc, line);
    TextAround(doc, line);
    TextAround(doc', line);
    assert doc'[..line] == doc[..line];
    FollowingTwo(doc', line + 1);
    assert doc'[line + 2..] == doc[line + 1..];
    InsertInside(Closed(doc[..line]), doc[line], col, before + "\n" + after, Following(doc[line + 1..]));
    SplitPieces(Closed(doc[..line]), doc[line][..col], before, after, doc[line][col..], Following(doc[line + 1..]));
  }

  lemma FollowingTwo(doc: Doc, line: nat)
    requires line < |doc|
    ensures Following(doc[line..]) == "\n" + doc[line] + Following(doc[line + 1..])
  {
    assert doc[line..][1..] == doc[line + 1..];
  }

  lemma InsertInside(a: string, b: string, col: nat, s: string, c: string)
    requires col <= |b|
    ensures var t, p := a + (b + c), |a| + col; t[..p] + s + t[p..] == a + b[..col] + s + b[col..] + c
  {
    var t, p := a + (b + c), |a| + col;
    assert t[..p] == a + b[..col];
    assert t[p..] == b[col..] + c;
  }

  lemma SplitPieces(a: string, b: string, before: string, after: string, c: string, d: string)
    ensures a + ((b + before) + ("\n" + (after + c) + d)) == a + b + (before + "\n" + after) + c + d
  {
  }

  /** Deleting one character. */
  lemma CutText(doc: Doc, line: nat, col: nat)
    requires line < |doc| && col < |doc[line]|
    ensures var p := PositionOf(doc, line) + col;
      p < |Text(doc)| && Text(doc)[p] == doc[line][col] && Text(CutAt(doc, line, col)) == Text(doc)[..p] + Text(doc)[p + 1..]
  {
    hide Text, Closed, Following;
    var doc' := CutAt(doc, line, col);
    PositionCounts(doc, line);
    TextAround(doc, line);
    TextAround(doc', line);
    assert doc'[..line] == doc[..line] && doc'[line + 1..] == doc[line + 1..];
    var a, b, c := Closed(doc[..line]), doc[line], Following(doc[line + 1..]);
    var t, p := a + (b + c), |a| + col;
    assert t[..p] == a + b[..col];
    assert t[p + 1..] == b[col + 1..] + c;
  }

  /** Deleting a line with its end, or all that the last line has. */
  lemma WithoutText(doc: Doc, line: nat)
    requires line < |doc|
    ensures var end := if line + 1 < |doc| then PositionOf(doc, line + 1) else |Text(doc)|;
      PositionOf(doc, line) <= end <= |Text(doc)| && Text(WithoutLine(doc, line)) == Text(doc)[..PositionOf(doc, line)] + Text(doc)[end..]
  {
    hide Text, Closed, Following;
    var doc' := WithoutLine(doc, line);
    PositionCounts(doc, line);
    TextAround(doc, line);
    TextAround(doc', line);
    assert doc'[..line] == doc[..line];
    if line + 1 < |doc| {
      PositionCounts(doc, line + 1);
      TextAround(doc, line + 1);
      assert doc'[line] == doc[line + 1] && doc'[line + 1..] == doc[line + 2..];
    } else {
      NothingFollows(doc', line);
      NothingFollows(doc, line);
    }
  }

  lemma NothingFollows(doc: Doc, line: nat)
    requires line + 1 == |doc|
    ensures Following(doc[line + 1..]) == ""
  {
  }

  // ----- What is not blank

  /** The characters of a line that are no blanks. */
  function Ink(s: string): string {
    if s == "" then "" else (if IsBlank(s[0]) then "" else [s[0]]) + Ink(s[1..])
  }

  function InkAll(doc: Doc): string {
    if doc == [] then "" else Ink(doc[0]) + InkAll(doc[1..])
  }

  lemma {:induction false} InkConcat(a: string, b: string)
    ensures Ink(a + b) == Ink(a) + Ink(b)
  {
    if a == "" {
      assert a + b == b;
    } else {
      assert (a + b)[0] == a[0] && (a + b)[1..] == a[1..] + b;
      InkConcat(a[1..], b);
    }
  }

  lemma {:induction false} InkAllConcat(a: Doc, b: Doc)
    ensures InkAll(a + b) == InkAll(a) + InkAll(b)
  {
    if a == [] {
      assert a + b == b;
    } else {
      assert (a + b)[0] == a[0] && (a + b)[1..] == a[1..] + b;
      InkAllConcat(a[1..], b);
    }
  }

  lemma InkParts(a: Doc, p: Doc, b: Doc, q: Doc, c: Doc)
    ensures InkAll(a + p + b + q + c) == InkAll(a) + InkAll(p) + InkAll(b) + InkAll(q) + InkAll(c)
  {
    hide InkAll;
    InkAllConcat(a + p + b + q, c);
    InkAllConcat(a + p + b, q);
    InkAllConcat(a + p, b);
    InkAllConcat(a, p);
  }

  lemma InkOne(s: string)
    ensures InkAll([s]) == Ink(s)
  {
    assert [s][1..] == [];
  }

  /** Indentation has no ink. */
  lemma {:induction false} InkBody(s: string)
    ensures Ink(Body(s)) == Ink(s)
  {
    if s != "" && IsBlank(s[0]) {
      InkBody(s[1..]);
      assert Body(s) == Body(s[1..]);
    } else {
      assert Body(s) == s;
    }
  }

  lemma {:induction false} InkBodies(a: Doc, b: Doc)
    requires |a| == |b| && forall i | 0 <= i < |a| :: Body(a[i]) == Body(b[i])
    ensures InkAll(a) == InkAll(b)
  {
    hide Body, Ink;
    if a != [] {
      InkBody(a[0]);
      InkBody(b[0]);
      assert Body(a[0]) == Body(b[0]);
      InkBodies(a[1..], b[1..]);
    }
  }

  class Sci {
    const tabs: Tabs
    var lines: Doc
    var caret: nat

    constructor (lines: Doc, tabs: Tabs)
      requires lines != []
      ensures this.lines == lines && this.tabs == tabs && caret == 0
    {
      this.lines, this.tabs, caret := lines, tabs, 0;
    }

    method SetLineIndentation(line: nat, n: int)
      requires line < |lines|
      modifies `lines
      ensures lines == old(lines)[line := SetIndentation(old(lines)[line], n, tabs)]
    {
      lines := lines[line := SetIndentation(lines[line], n, tabs)];
    }

    /** SCI_INSERTTEXT of `before`, a line end and `after` */
    method InsertText(pos: nat, before: string, after: string)
      requires lines != []
      requires PositionOf(lines, LineOf(lines, pos)) <= pos <= PositionOf(lines, LineOf(lines, pos)) + |lines[LineOf(lines, pos)]|
      modifies `lines
      ensures var l := LineOf(old(lines), pos);
        lines == SplitAt(old(lines), l, pos - PositionOf(old(lines), l), before, after)
    {
      var l := LineOf(lines, pos);
      lines := SplitAt(lines, l, pos - PositionOf(lines, l), before, after);
    }

    /** SCI_DELETERANGE of one character that is no line end */
    method DeleteChar(pos: nat)
      requires lines != []
      requires PositionOf(lines, LineOf(lines, pos)) <= pos < PositionOf(lines, LineOf(lines, pos)) + |lines[LineOf(lines, pos)]|
      modifies `lines
      ensures var l := LineOf(old(lines), pos);
        lines == CutAt(old(lines), l, pos - PositionOf(old(lines), l))
    {
      var l := LineOf(lines, pos);
      lines := CutAt(lines, l, pos - PositionOf(lines, l));
    }

    method DeleteLine(line: nat)
      requires line < |lines|
      modifies `lines
      ensures lines == WithoutLine(old(lines), line)
    {
      lines := WithoutLine(lines, line);
    }
  }
}
