/**
 Removing a pair of brackets with Shift+BackSpace, and one pair of empty brackets with
 BackSpace, autoclose.c; and how that undoes enclosing.
 */
module AutocloseBackspace {
  import opened Common
  import opened Scintilla
  import opened Brackets
  import opened AutocloseBlock

  // ----- Finding a quote

  function LastIn(s: string, end: nat, c: char): (r: Option<nat>)
    requires end <= |s|
    ensures r.Some? ==> r.value < end && s[r.value] == c
    ensures r.Some? ==> forall i | r.value < i < end :: s[i] != c
    ensures r.None? ==> forall i | 0 <= i < end :: s[i] != c
  {
    if end == 0 then None else if s[end - 1] == c then Some(end - 1) else LastIn(s, end - 1, c)
  }

  /** ao_sci_find_prev_string for one character */
  function FindPrevious(doc: Doc, line: nat, col: nat, c: char): (r: Option<Place>)
    requires line < |doc| && col <= |doc[line]|
    ensures r.Some? ==> r.value.line <= line && r.value.col < |doc[r.value.line]| && doc[r.value.line][r.value.col] == c
    ensures r.Some? && r.value.line == line ==> r.value.col < col
  {
    var found := LastIn(doc[line], col, c);
    if found.Some? then Some(Place(line, found.value))
    else if line == 0 then None
    else FindPrevious(doc, line - 1, |doc[line - 1]|, c)
  }

  /** The last such character before the place, if there is one. */
  lemma {:induction false} FindPreviousIs(doc: Doc, line: nat, col: nat, c: char, p: Place)
    requires line < |doc| && col <= |doc[line]| && IsPlace(doc, p) && IsBefore(p, Place(line, col))
    ensures FindPrevious(doc, line, col, c) == Some(p) <==> doc[p.line][p.col] == c && c !in Span(doc, p.line, p.col + 1, line, col)
  {
    if p.line < line {
      SpanBack(doc, p.line, p.col + 1, line, col);
      FindPreviousIs(doc, line - 1, |doc[line - 1]|, c, p);
    }
  }

  lemma {:induction false} FindPreviousNone(doc: Doc, line: nat, col: nat, c: char)
    requires line < |doc| && col <= |doc[line]|
    ensures FindPrevious(doc, line, col, c).None? <==> c !in Span(doc, 0, 0, line, col)
  {
    if line > 0 {
      SpanBack(doc, 0, 0, line, col);
      FindPreviousNone(doc, line - 1, |doc[line - 1]|, c);
    }
  }

  // ----- What removing a pair does

  /** Without the two brackets. */
  function CutBoth(doc: Doc, p: Place, q: Place): (r: Doc)
    requires p.line < |doc| && p.col < |doc[p.line]| && q.line < |doc| && q.col < |doc[q.line]| && p != q
    ensures |r| == |doc|
  {
    if p.line != q.line then doc[p.line := Cut(doc[p.line], p.col)][q.line := Cut(doc[q.line], q.col)]
    else if p.col < q.col then doc[p.line := Cut(Cut(doc[p.line], q.col), p.col)]
    else doc[p.line := Cut(Cut(doc[p.line], p.col), q.col)]
  }

  /** unindent_line */
  function Unindented(s: string, width: int, tabs: Tabs): string {
    var indent := Indentation(s, tabs);
    SetIndentation(s, if indent > 0 then indent - width else 0, tabs)
  }

  /** One clamped width less, and nothing else. */
  lemma UnindentedIs(s: string, width: nat, tabs: Tabs)
    ensures var indent := Indentation(s, tabs);
      Indentation(Unindented(s, width, tabs), tabs) == if indent > width then indent - width else 0
    ensures Body(Unindented(s, width, tabs)) == Body(s)
  {
    var indent := Indentation(s, tabs);
    SetIndentationIs(s, if indent > 0 then indent - width else 0, tabs);
  }

  function UnindentAll(lines: Doc, width: int, tabs: Tabs): (r: Doc)
    ensures |r| == |lines| && forall i | 0 <= i < |lines| :: r[i] == Unindented(lines[i], width, tabs)
  {
    seq(|lines|, i requires 0 <= i < |lines| => Unindented(lines[i], width, tabs))
  }

  /** A bracket's line after the bracket is gone: nothing is left of it if it became blank, but the last line can only be emptied. */
  function Remnant(line: string, last: bool): Doc {
    if Body(line) != "" then [line] else if last then [""] else []
  }

  /**
   Lines `a` and `b` have lost their brackets: what remains of them, with the lines strictly
   between them unindented, and all other lines as they were.
   */
  function Collapsed(doc: Doc, a: nat, b: nat, width: int, tabs: Tabs): Doc
    requires a < b < |doc|
  {
    doc[..a] + Remnant(doc[a], false) + UnindentAll(doc[a + 1..b], width, tabs) + Remnant(doc[b], b + 1 == |doc|) + doc[b + 1..]
  }

  function PairRemoved(doc: Doc, p: Place, q: Place, curly: bool, width: int, tabs: Tabs): Doc
    requires p.line < |doc| && p.col < |doc[p.line]| && q.line < |doc| && q.col < |doc[q.line]| && p != q
  {
    var cut := CutBoth(doc, p, q);
    if !curly || p.line == q.line then cut
    else if p.line < q.line then Collapsed(cut, p.line, q.line, width, tabs)
    else Collapsed(cut, q.line, p.line, width, tabs)
  }

  lemma UnindentAllBodies(lines: Doc, width: nat, tabs: Tabs)
    ensures forall i | 0 <= i < |lines| :: Body(UnindentAll(lines, width, tabs)[i]) == Body(lines[i])
  {
    hide Body, Unindented;
    forall i | 0 <= i < |lines|
      ensures Body(UnindentAll(lines, width, tabs)[i]) == Body(lines[i])
    {
      UnindentedIs(lines[i], width, tabs);
    }
  }

  /** Only blank lines are taken away. */
  lemma RemnantInk(line: string, last: bool)
    ensures InkAll(Remnant(line, last)) == InkAll([line])
  {
    InkBody(line);
    InkOne(line);
    InkOne("");
  }

  /** Removing a pair of brackets takes away the two brackets and no other text. */
  lemma RemovingKeepsText(doc: Doc, p: Place, q: Place, curly: bool, width: nat, tabs: Tabs)
    requires p.line < |doc| && p.col < |doc[p.line]| && q.line < |doc| && q.col < |doc[q.line]| && p != q
    ensures InkAll(PairRemoved(doc, p, q, curly, width, tabs)) == InkAll(CutBoth(doc, p, q))
  {
    hide CutBoth, InkAll, Collapsed;
    var cut := CutBoth(doc, p, q);
    if p.line < q.line { CollapsingKeepsText(cut, p.line, q.line, width, tabs); }
    if q.line < p.line { CollapsingKeepsText(cut, q.line, p.line, width, tabs); }
  }

  lemma FiveParts(doc: Doc, a: nat, b: nat)
    requires a < b < |doc|
    ensures doc == doc[..a] + [doc[a]] + doc[a + 1..b] + [doc[b]] + doc[b + 1..]
  {
  }

  lemma CollapsingKeepsText(doc: Doc, a: nat, b: nat, width: nat, tabs: Tabs)
    requires a < b < |doc|
    ensures InkAll(Collapsed(doc, a, b, width, tabs)) == InkAll(doc)
  {
    hide InkAll, Remnant, UnindentAll, Body;
    var inner := doc[a + 1..b];
    FiveParts(doc, a, b);
    RemnantInk(doc[a], false);
    RemnantInk(doc[b], b + 1 == |doc|);
    UnindentAllBodies(inner, width, tabs);
    InkBodies(UnindentAll(inner, width, tabs), inner);
    InkParts(doc[..a], [doc[a]], inner, [doc[b]], doc[b + 1..]);
    InkParts(doc[..a], Remnant(doc[a], false), UnindentAll(inner, width, tabs), Remnant(doc[b], b + 1 == |doc|), doc[b + 1..]);
  }

  /** The lines around those of the brackets stay, and so does the line of a bracket that has other text. */
  lemma CollapsedAround(doc: Doc, a: nat, b: nat, width: nat, tabs: Tabs)
    requires a < b < |doc|
    ensures var r, p, q := Collapsed(doc, a, b, width, tabs), Remnant(doc[a], false), Remnant(doc[b], b + 1 == |doc|);
      && |r| == |doc| - 2 + |p| + |q|
      && r[..a] == doc[..a] && r[|r| - (|doc| - b - 1)..] == doc[b + 1..]
      && (Body(doc[a]) != "" ==> r[a] == doc[a])
      && (Body(doc[b]) != "" ==> r[b - 1 + |p|] == doc[b])
    ensures |Remnant(doc[a], false)| == if Body(doc[a]) == "" then 0 else 1
    ensures |Remnant(doc[b], b + 1 == |doc|)| == if Body(doc[b]) == "" && b + 1 < |doc| then 0 else 1
  {
    hide Body, Unindented, UnindentAll;
    PartsAt(doc[..a], Remnant(doc[a], false), UnindentAll(doc[a + 1..b], width, tabs), Remnant(doc[b], b + 1 == |doc|), doc[b + 1..]);
  }

  /** The lines between them lose their indentation. */
  lemma CollapsedInside(doc: Doc, a: nat, k: nat, b: nat, width: nat, tabs: Tabs)
    requires a < k < b < |doc|
    ensures var r, at := Collapsed(doc, a, b, width, tabs), k - 1 + |Remnant(doc[a], false)|;
      at < |r| && r[at] == Unindented(doc[k], width, tabs)
  {
    hide Remnant, Unindented, UnindentAll;
    InsideAt(doc[..a] + Remnant(doc[a], false), UnindentAll(doc[a + 1..b], width, tabs), Remnant(doc[b], b + 1 == |doc|), doc[b + 1..], k - a - 1);
  }

  lemma PartsAt(a: Doc, p: Doc, b: Doc, q: Doc, c: Doc)
    ensures var r := a + p + b + q + c;
      && |r| == |a| + |p| + |b| + |q| + |c| && r[..|a|] == a && r[|r| - |c|..] == c
      && (|p| == 1 ==> r[|a|] == p[0]) && (|q| == 1 ==> r[|a| + |p| + |b|] == q[0])
  {
  }

  lemma InsideAt(a: Doc, b: Doc, c: Doc, d: Doc, i: nat)
    requires i < |b|
    ensures (a + b + c + d)[|a| + i] == b[i]
  {
  }

  // ----- The editor

  /** The check buttons that handle_backspace reads, and what check_chars says of a character. */
  datatype Config = Config(deletePairingBrace: bool, removePair: bool, pairs: map<char, (char, char)>)

  /** Some of the pairs are enabled. */
  predicate IsConfig(c: Config) {
    forall ch | ch in c.pairs :: ch in PAIRS && c.pairs[ch] == PAIRS[ch]
  }

  datatype Action = Continue | Stop

  predicate IsCurly(c: char) {
    c == '{' || c == '}'
  }

  /** sci_get_char_at; a line end, or nothing outside the document. */
  function CharAt(doc: Doc, pos: int): (c: char)
    requires doc != []
  {
    if pos < 0 then '\0'
    else
      var line := LineOf(doc, pos);
      var col := pos - PositionOf(doc, line);
      if 0 <= col < |doc[line]| then doc[line][col] else if line + 1 < |doc| then '\n' else '\0'
  }

  /** The place of the bracket that pairs with the one before the caret. */
  function Partner(doc: Doc, at: Place, pair: (char, char)): (r: Option<Place>)
    requires at.line < |doc| && at.col < |doc[at.line]|
    requires doc[at.line][at.col] == pair.0 || doc[at.line][at.col] == pair.1
    ensures r.Some? ==> r.value.line < |doc| && r.value.col < |doc[r.value.line]| && r.value != at
  {
    if pair.0 != pair.1 then FindMatching(doc, at, pair.0, pair.1)
    else FindPrevious(doc, at.line, at.col, pair.0)
  }

  /** The character at a position of the text. */
  lemma CharAtIs(doc: Doc, pos: int)
    requires doc != []
    ensures CharAt(doc, pos) == if 0 <= pos < |Text(doc)| then Text(doc)[pos] else '\0'
  {
    hide Text, PositionOf, LineOf;
    if pos >= 0 {
      var line := LineOf(doc, pos);
      InLine(doc, pos);
      TextAround(doc, line);
      PositionCounts(doc, line);
      if line + 1 < |doc| {
        FollowingTwo(doc, line + 1);
        AfterLine(doc, line);
      } else {
        NothingFollows(doc, line);
      }
    }
  }

  lemma AfterLine(doc: Doc, line: nat)
    requires line < |doc|
    ensures PositionOf(doc, line + 1) == PositionOf(doc, line) + |doc[line]| + 1
  {
  }

  function PlaceOf(doc: Doc, pos: nat): Place
    requires doc != [] && InDocument(doc, pos)
  {
    ColumnOf(doc, pos);
    Place(LineOf(doc, pos), pos - PositionOf(doc, LineOf(doc, pos)))
  }

  function PosOf(doc: Doc, p: Place): nat
    requires p.line < |doc|
  {
    PositionOf(doc, p.line) + p.col
  }

  /** A character that is no line end: its place, and the line of the position after it. */
  lemma CharPlace(doc: Doc, pos: nat)
    requires doc != [] && CharAt(doc, pos) !in "\n\0"
    ensures InDocument(doc, pos) && InDocument(doc, pos + 1)
    ensures var p := PlaceOf(doc, pos);
      && p.line < |doc| && p.col < |doc[p.line]| && doc[p.line][p.col] == CharAt(doc, pos)
      && PosOf(doc, p) == pos && LineOf(doc, pos + 1) == p.line
  {
    LineFromRange(doc, pos, 0);
    var l := LineOf(doc, pos);
    if l + 1 < |doc| { PositionsAscend(doc, l + 1, |doc| - 1); }
    LineOfColumn(doc, l, pos + 1 - PositionOf(doc, l));
  }

  lemma {:induction false} CutPositions(doc: Doc, p: Place, k: nat)
    requires p.line < |doc| && p.col < |doc[p.line]| && k <= |doc|
    ensures PositionOf(CutAt(doc, p.line, p.col), k) == PositionOf(doc, k) - if k > p.line then 1 else 0
  {
    if k > 0 { CutPositions(doc, p, k - 1); }
  }

  /** Which of two characters comes first. */
  lemma PlacesOrder(doc: Doc, p: Place, q: Place)
    requires p.line < |doc| && p.col < |doc[p.line]| && q.line < |doc| && q.col < |doc[q.line]| && p != q
    ensures PosOf(doc, q) <= PosOf(doc, p) <==> q.line < p.line || (q.line == p.line && q.col < p.col)
  {
    if q.line < p.line { PositionsAscend(doc, q.line, p.line); }
    if p.line < q.line { PositionsAscend(doc, p.line, q.line); }
  }

  /** The second bracket is where the first deletion has moved it. */
  lemma SecondCut(doc: Doc, p: Place, q: Place)
    requires p.line < |doc| && p.col < |doc[p.line]| && q.line < |doc| && q.col < |doc[q.line]| && p != q
    ensures var cut := CutAt(doc, q.line, q.col);
      var pos := PosOf(doc, p) - if PosOf(doc, q) <= PosOf(doc, p) then 1 else 0;
      && pos >= 0 && LineOf(cut, pos) == p.line
      && PositionOf(cut, p.line) <= pos < PositionOf(cut, p.line) + |cut[p.line]|
      && CutAt(cut, p.line, pos - PositionOf(cut, p.line)) == CutBoth(doc, p, q)
  {
    hide PositionOf, LineOf;
    var cut := CutAt(doc, q.line, q.col);
    PlacesOrder(doc, p, q);
    CutPositions(doc, q, p.line);
    var col := if q.line == p.line && q.col < p.col then p.col - 1 else p.col;
    LineOfColumn(cut, p.line, col);
    var pos := PosOf(doc, p) - if PosOf(doc, q) <= PosOf(doc, p) then 1 else 0;
    assert pos == PositionOf(cut, p.line) + col;
    var both := CutAt(cut, p.line, col);
    assert p.line != q.line ==> both == doc[p.line := Cut(doc[p.line], p.col)][q.line := Cut(doc[q.line], q.col)];
    assert p.line == q.line ==> both == doc[p.line := Cut(Cut(doc[p.line], q.col), col)];
    if p.line == q.line && q.col < p.col { CutsCommute(doc[p.line], q.col, p.col); }
  }

  lemma CutsCommute(s: string, i: nat, j: nat)
    requires i < j < |s|
    ensures Cut(Cut(s, j), i) == Cut(Cut(s, i), j - 1)
  {
  }

  /** Without the character at a position. */
  function CutChar(doc: Doc, pos: nat): Doc
    requires doc != []
  {
    if InDocument(doc, pos) && PlaceOf(doc, pos).col < |doc[PlaceOf(doc, pos).line]|
    then CutAt(doc, PlaceOf(doc, pos).line, PlaceOf(doc, pos).col) else doc
  }

  lemma TopGone(doc: Doc, a: nat, b: nat)
    requires a < b < |doc|
    ensures (if Body(doc[a]) == "" then WithoutLine(doc, a) else doc) ==
      doc[..a] + Remnant(doc[a], false) + doc[a + 1..b] + doc[b..]
  {
    hide Body;
    TopSplit(doc, a, b);
    assert doc[..a] + [] == doc[..a];
  }

  lemma TopSplit(doc: Doc, a: nat, b: nat)
    requires a < b < |doc|
    ensures WithoutLine(doc, a) == doc[..a] + doc[a + 1..b] + doc[b..]
    ensures doc == doc[..a] + [doc[a]] + doc[a + 1..b] + doc[b..]
  {
    assert doc[a + 1..] == doc[a + 1..b] + doc[b..];
    assert doc == doc[..a] + ([doc[a]] + doc[a + 1..]);
  }

  lemma LastGone(front: Doc, back: Doc)
    requires back != []
    ensures (front + back)[|front|] == back[0]
    ensures (if Body(back[0]) == "" then WithoutLine(front + back, |front|) else front + back) ==
      front + (Remnant(back[0], |back| == 1) + back[1..])
  {
    hide Body;
    var doc := front + back;
    assert doc[..|front|] == front && doc[|front| + 1..] == back[1..];
    assert back == [back[0]] + back[1..];
  }

  lemma Pieces(a: Doc, b: Doc, c: Doc)
    ensures (a + b + c)[..|a|] == a && (a + b + c)[|a|..|a| + |b|] == b && (a + b + c)[|a| + |b|..] == c
  {
  }

  class Backspace {
    const sci: Sci
    const config: Config

    constructor (sci: Sci, config: Config)
      ensures this.sci == sci && this.config == config
    {
      this.sci, this.config := sci, config;
    }

    /** The loop that takes one width from the lines of the block. */
    method UnindentLines(from: nat, to: int, width: nat)
      requires to < |sci.lines| && from <= to + 1
      modifies sci`lines
      ensures sci.lines == old(sci.lines)[..from] + UnindentAll(old(sci.lines)[from..to + 1], width, sci.tabs) + old(sci.lines)[to + 1..]
    {
      hide Unindented, SetIndentation, Indentation;
      ghost var doc := sci.lines;
      var i := from;
      while i <= to
        invariant from <= i <= to + 1 && |sci.lines| == |doc|
        invariant forall k | 0 <= k < |doc| :: sci.lines[k] == if from <= k < i then Unindented(doc[k], width, sci.tabs) else doc[k]
      {
        Unindent(i, width);
        i := i + 1;
      }
    }

    /** unindent_line */
    method Unindent(line: nat, width: nat)
      requires line < |sci.lines|
      modifies sci`lines
      ensures sci.lines == old(sci.lines)[line := Unindented(old(sci.lines)[line], width, sci.tabs)]
    {
      var indent := Indentation(sci.lines[line], sci.tabs);
      sci.SetLineIndentation(line, if indent > 0 then indent - width else 0);
    }

    /** Deletes the lines of the brackets if they are blank; the lines between them are then `from` to `to`. */
    method DropBlankLines(a: nat, b: nat) returns (from: nat, to: int)
      requires a < b < |sci.lines|
      modifies sci`lines
      ensures var doc := old(sci.lines);
        var top, inner := doc[..a] + Remnant(doc[a], false), doc[a + 1..b];
        && from == |top| && to == |top| + |inner| - 1
        && sci.lines == top + inner + (Remnant(doc[b], b + 1 == |doc|) + doc[b + 1..])
    {
      hide Remnant;
      ghost var doc := sci.lines;
      ghost var top, inner := doc[..a] + Remnant(doc[a], false), doc[a + 1..b];
      from, to := DropTop(a, b);
      DropBottom(to, top + inner, doc[b..]);
      to := to - 1;
    }

    /** The line of the opening bracket goes if it is blank; where the lines after it and the closing bracket are then. */
    method DropTop(a: nat, b: nat) returns (lineStart: nat, lineEnd: nat)
      requires a < b < |sci.lines|
      modifies sci`lines
      ensures var doc := old(sci.lines);
        var top := doc[..a] + Remnant(doc[a], false);
        lineStart == |top| && lineEnd == |top + doc[a + 1..b]| && sci.lines == top + doc[a + 1..b] + doc[b..]
    {
      hide Body, WithoutLine;
      TopGone(sci.lines, a, b);
      lineStart, lineEnd := a, b;
      if Body(sci.lines[lineStart]) == "" {
        sci.DeleteLine(lineStart);
        lineEnd := lineEnd - 1;
      } else {
        lineStart := lineStart + 1;
      }
    }

    /** The line of the closing bracket goes if it is blank. */
    method DropBottom(lineEnd: nat, ghost front: Doc, ghost back: Doc)
      requires sci.lines == front + back && back != [] && lineEnd == |front|
      modifies sci`lines
      ensures sci.lines == front + (Remnant(back[0], |back| == 1) + back[1..])
    {
      hide Body, WithoutLine;
      LastGone(front, back);
      if Body(sci.lines[lineEnd]) == "" {
        sci.DeleteLine(lineEnd);
      }
    }

    /** The part of handle_backspace that is called the indentation magic. */
    method Collapse(a: nat, b: nat, width: nat)
      requires a < b < |sci.lines|
      modifies sci`lines
      ensures sci.lines == Collapsed(old(sci.lines), a, b, width, sci.tabs)
    {
      hide UnindentAll, Remnant;
      ghost var doc := sci.lines;
      ghost var top, inner := doc[..a] + Remnant(doc[a], false), doc[a + 1..b];
      ghost var bottom := Remnant(doc[b], b + 1 == |doc|) + doc[b + 1..];
      var from, to := DropBlankLines(a, b);
      Pieces(top, inner, bottom);
      UnindentLines(from, to, width);
      assert top + UnindentAll(inner, width, sci.tabs) + bottom == Collapsed(doc, a, b, width, sci.tabs);
    }

    /** Deletes both brackets. */
    method DeletePair(at: Place, partner: Place)
      requires at.line < |sci.lines| && at.col < |sci.lines[at.line]|
      requires partner.line < |sci.lines| && partner.col < |sci.lines[partner.line]| && at != partner
      modifies sci`lines
      ensures sci.lines == CutBoth(old(sci.lines), at, partner)
    {
      hide PositionOf, LineOf, CutBoth;
      ghost var doc := sci.lines;
      var pos := PosOf(sci.lines, at) + 1;
      var endPos := PosOf(sci.lines, partner);
      LineOfColumn(doc, partner.line, partner.col);
      SecondCut(doc, at, partner);
      sci.DeleteChar(endPos);
      if endPos < pos { pos := pos - 1; }
      sci.DeleteChar(pos - 1);
    }

    /** handle_backspace */
    method HandleBackspace(shift: bool, width: nat) returns (action: Action)
      requires IsConfig(config) && sci.lines != []
      modifies sci`lines
      ensures var doc, ch := old(sci.lines), CharAt(old(sci.lines), sci.caret - 1);
        if !config.deletePairingBrace || ch !in config.pairs then sci.lines == doc && action == Continue
        else if shift && config.removePair then
          InDocument(doc, sci.caret - 1) &&
          var at := PlaceOf(doc, sci.caret - 1);
          var partner := Partner(doc, at, config.pairs[ch]);
          if partner.None? then sci.lines == doc && action == Continue
          else sci.lines == PairRemoved(doc, at, partner.value, IsCurly(ch), width, sci.tabs) && action == Stop
        else
          action == Continue &&
          if !(IsQuote(ch) && CharAt(doc, sci.caret - 2) == '\\') && config.pairs[ch].0 == ch && config.pairs[ch].1 == CharAt(doc, sci.caret)
          then sci.lines == CutChar(doc, sci.caret)
          else sci.lines == doc
    {
      hide PositionOf, LineOf, Collapsed, CutBoth, Partner, CutAt;
      var pos: int := sci.caret;
      action := Continue;
      if !config.deletePairingBrace { return; }
      var ch := CharAt(sci.lines, pos - 1);
      if ch !in config.pairs { return; }
      var pair := config.pairs[ch];
      CharPlace(sci.lines, pos - 1);
      if shift && (pair.0 == ch || pair.1 == ch) && config.removePair {
        var at := PlaceOf(sci.lines, pos - 1);
        var partner := Partner(sci.lines, at, pair);
        if partner.None? { return; }
        var lineStart, lineEnd := LineOf(sci.lines, pos), partner.value.line;
        DeletePair(at, partner.value);
        if IsCurly(ch) && lineStart != lineEnd {
          if lineStart > lineEnd { lineStart, lineEnd := lineEnd, lineStart; }
          Collapse(lineStart, lineEnd, width);
        }
        action := Stop;
        return;
      }
      if IsQuote(ch) && CharAt(sci.lines, pos - 2) == '\\' { return; }
      if pair.0 == ch && pair.1 == CharAt(sci.lines, pos) {
        CharPlace(sci.lines, pos);
        sci.DeleteChar(pos);
      }
    }
  }

  // ----- Removing undoes enclosing

  /** How deep the end of `s` is, or None if a bracket around it is closed inside. */
  function Net(s: string, depth: nat): (r: Option<nat>)
    requires depth > 0
    ensures r.Some? ==> r.value > 0
  {
    if s == "" then Some(depth)
    else if s[0] == '{' then Net(s[1..], depth + 1)
    else if s[0] == '}' then (if depth == 1 then None else Net(s[1..], depth - 1))
    else Net(s[1..], depth)
  }

  function NetAll(lines: Doc, depth: nat): (r: Option<nat>)
    requires depth > 0
    ensures r.Some? ==> r.value > 0
    decreases |lines|
  {
    if lines == [] then Some(depth)
    else if Net(lines[0], depth).None? then None
    else NetAll(lines[1..], Net(lines[0], depth).value)
  }

  /** The curly brackets of the lines are balanced. */
  predicate Balanced(lines: Doc) {
    NetAll(lines, 1) == Some(1)
  }

  lemma {:induction false} ScanNet(s: string, i: nat, depth: nat)
    requires i <= |s| && depth > 0 && Net(s[i..], depth).Some?
    ensures ScanRight(s, i, '{', '}', depth) == Depth(Net(s[i..], depth).value)
    decreases |s| - i
  {
    if i < |s| {
      assert s[i..][1..] == s[i + 1..];
      var d := if s[i] == '{' then depth + 1 else if s[i] == '}' then depth - 1 else depth;
      ScanNet(s, i + 1, d);
    }
  }

  lemma {:induction false} NetBody(s: string, depth: nat)
    requires depth > 0
    ensures Net(s, depth) == Net(Body(s), depth)
  {
    if s != "" && IsBlank(s[0]) {
      NetBody(s[1..], depth);
      assert Body(s) == Body(s[1..]);
    } else {
      assert Body(s) == s;
    }
  }

  lemma {:induction false} ScanBlanks(s: string, i: nat)
    requires i <= WhiteLen(s)
    ensures ScanRight(s, i, '{', '}', 1) == ScanRight(s, WhiteLen(s), '{', '}', 1)
    decreases WhiteLen(s) - i
  {
    if i < WhiteLen(s) { ScanBlanks(s, i + 1); }
  }

  lemma {:induction false} NetAllBodies(a: Doc, b: Doc, depth: nat)
    requires depth > 0 && |a| == |b| && forall i | 0 <= i < |a| :: Body(a[i]) == Body(b[i])
    ensures NetAll(a, depth) == NetAll(b, depth)
    decreases |a|
  {
    hide Body, Net;
    if a != [] {
      assert Body(a[0]) == Body(b[0]);
      NetBody(a[0], depth);
      NetBody(b[0], depth);
      if Net(a[0], depth).Some? { NetAllBodies(a[1..], b[1..], Net(a[0], depth).value); }
    }
  }

  /** Balanced lines are passed over. */
  lemma {:induction false} MatchThrough(doc: Doc, line: nat, t: nat, depth: nat)
    requires line <= t < |doc| && depth > 0 && NetAll(doc[line..t], depth).Some?
    ensures MatchRight(doc, line, 0, '{', '}', depth) == MatchRight(doc, t, 0, '{', '}', NetAll(doc[line..t], depth).value)
    decreases t - line
  {
    hide Net, ScanRight;
    if line < t {
      assert doc[line..t][0] == doc[line] && doc[line..t][1..] == doc[line + 1..t];
      assert doc[line][0..] == doc[line];
      ScanNet(doc[line], 0, depth);
      MatchThrough(doc, line + 1, t, Net(doc[line], depth).value);
    }
  }

  lemma ClosingLine(line: string)
    requires Body(line) == "}"
    ensures |line| == WhiteLen(line) + 1 && ScanRight(line, 0, '{', '}', 1) == At(WhiteLen(line))
    ensures Body(Cut(line, WhiteLen(line))) == ""
  {
    assert line[WhiteLen(line)] == Body(line)[0];
    ScanBlanks(line, 0);
    AllBlank(Cut(line, WhiteLen(line)));
  }

  lemma OpeningLine(s: string)
    ensures var line := s[..WhiteLen(s)] + "{";
      && |line| == WhiteLen(s) + 1 && line[WhiteLen(s)] == '{'
      && ScanRight(line, WhiteLen(s) + 1, '{', '}', 1) == Depth(1)
      && Body(Cut(line, WhiteLen(s))) == ""
  {
    AllBlank(Cut(s[..WhiteLen(s)] + "{", WhiteLen(s)));
  }

  lemma AllBlank(s: string)
    requires forall i | 0 <= i < |s| :: IsBlank(s[i])
    ensures Body(s) == ""
  {
  }

  /** The bracket that closes a balanced block is the one that was put there. */
  lemma BlockMatches(doc: Doc, doc': Doc, s: nat, t: nat, tabs: Tabs, width: nat)
    requires Encloses(doc, doc', s, t, tabs, width) && Balanced(doc[s..t])
    ensures WhiteLen(doc[s]) < |doc'[s]| && doc'[s][WhiteLen(doc[s])] == '{'
    ensures Partner(doc', Place(s, WhiteLen(doc[s])), ('{', '}')) == Some(Place(t + 1, WhiteLen(doc'[t + 1])))
  {
    hide Net, ScanRight, Body, Indentation, NetAll;
    OpeningLine(doc[s]);
    ClosingLine(doc'[t + 1]);
    var block := doc'[s + 1..t + 1];
    forall i | 0 <= i < |block|
      ensures Body(block[i]) == Body(doc[s..t][i])
    {
      assert MovedBy(doc[s + i], doc'[s + i + 1], width, tabs);
    }
    NetAllBodies(block, doc[s..t], 1);
    MatchThrough(doc', s + 1, t + 1, 1);
  }

  /** The document line by line, as far as indentation and text go. */
  ghost predicate Restored(doc: Doc, r: Doc, tabs: Tabs) {
    |r| >= |doc| && forall k | 0 <= k < |doc| :: MovedBy(doc[k], r[k], 0, tabs)
  }

  lemma UnindentRestores(from: string, to: string, width: nat, tabs: Tabs)
    requires MovedBy(from, to, width, tabs)
    ensures MovedBy(from, Unindented(to, width, tabs), 0, tabs)
  {
    UnindentedIs(to, width, tabs);
  }

  /** What is left when both brackets' lines became blank. */
  lemma BlockCollapsed(doc: Doc, doc': Doc, s: nat, t: nat, tabs: Tabs, width: nat)
    requires Encloses(doc, doc', s, t, tabs, width)
    ensures var p, q := Place(s, WhiteLen(doc[s])), Place(t + 1, WhiteLen(doc'[t + 1]));
      && p.col < |doc'[s]| && q.col < |doc'[t + 1]|
      && PairRemoved(doc', p, q, true, width, tabs) ==
        doc[..s] + UnindentAll(doc'[s + 1..t + 1], width, tabs) + (if t == |doc| then [""] else []) + doc[t..]
  {
    hide Body, Indentation, Unindented, MovedBy, UnindentAll;
    OpeningLine(doc[s]);
    ClosingLine(doc'[t + 1]);
    var p, q := Place(s, WhiteLen(doc[s])), Place(t + 1, WhiteLen(doc'[t + 1]));
    var cut := CutBoth(doc', p, q);
    assert cut[s + 1..t + 1] == doc'[s + 1..t + 1];
    assert cut[..s] == doc[..s] && cut[t + 2..] == doc[t..];
  }

  lemma BlockRestored(doc: Doc, inner: Doc, tail: Doc, s: nat, t: nat, tabs: Tabs)
    requires s <= t <= |doc| && |inner| == t - s && (t < |doc| ==> tail == [])
    requires forall k | s <= k < t :: MovedBy(doc[k], inner[k - s], 0, tabs)
    ensures var r := doc[..s] + inner + tail + doc[t..]; Restored(doc, r, tabs) && r[|doc|..] == tail
  {
    hide MovedBy;
    var r := doc[..s] + inner + tail + doc[t..];
    forall k | 0 <= k < |doc|
      ensures MovedBy(doc[k], r[k], 0, tabs)
    {
      if s <= k < t { assert r[k] == inner[k - s]; } else { Unmoved(doc[k], tabs); }
    }
  }

  /**
   Enclosing balanced lines and removing the brackets gives the lines back, whatever end the
   stale position has given the block; an empty line is left over exactly when the closing
   bracket was on the last line.
   */
  lemma RemovingUndoesEnclosing(doc: Doc, doc': Doc, s: nat, t: nat, tabs: Tabs, width: nat)
    requires Encloses(doc, doc', s, t, tabs, width) && Balanced(doc[s..t])
    ensures var at := Place(s, WhiteLen(doc[s]));
      && at.col < |doc'[s]| && doc'[s][at.col] == '{'
      && Partner(doc', at, ('{', '}')).Some?
      && var r := PairRemoved(doc', at, Partner(doc', at, ('{', '}')).value, true, width, tabs);
         Restored(doc, r, tabs) && r[|doc|..] == if t == |doc| then [""] else []
  {
    hide Balanced, Body, Indentation, Unindented, MovedBy, Partner, Restored, PairRemoved, WhiteLen;
    BlockMatches(doc, doc', s, t, tabs, width);
    BlockCollapsed(doc, doc', s, t, tabs, width);
    var inner := UnindentAll(doc'[s + 1..t + 1], width, tabs);
    forall k | s <= k < t
      ensures MovedBy(doc[k], inner[k - s], 0, tabs)
    {
      assert inner[k - s] == Unindented(doc'[k + 1], width, tabs);
      UnindentRestores(doc[k], doc'[k + 1], width, tabs);
    }
    BlockRestored(doc, inner, if t == |doc| then [""] else [], s, t, tabs);
  }

  lemma Unmoved(s: string, tabs: Tabs)
    ensures MovedBy(s, s, 0, tabs)
  {
  }

  /** The caret after the opening bracket of a block. */
  lemma CaretAfterBracket(doc: Doc, s: nat, col: nat)
    requires s < |doc| && col < |doc[s]| && doc[s][col] == '{'
    ensures var pos := PositionOf(doc, s) + col;
      CharAt(doc, pos) == '{' && InDocument(doc, pos) && PlaceOf(doc, pos) == Place(s, col)
  {
    LineOfColumn(doc, s, col);
    CharPlace(doc, PositionOf(doc, s) + col);
  }

  /** The user selects lines, types a curly bracket, puts the caret after it and presses Shift+BackSpace. */
  method EncloseAndRemove(block: Block, backspace: Backspace, start: nat, end: nat, width: nat)
    requires block.sci == backspace.sci && IsConfig(backspace.config)
    requires backspace.config.deletePairingBrace && backspace.config.removePair && '{' in backspace.config.pairs
    requires block.sci.lines != [] && start <= end && InDocument(block.sci.lines, end)
    requires var doc, s := block.sci.lines, LineOf(block.sci.lines, start); Balanced(doc[s..BlockEnd(doc, s, end)])
    modifies block.sci
    ensures var doc, s := old(block.sci.lines), LineOf(old(block.sci.lines), start);
      Restored(doc, block.sci.lines, block.sci.tabs)
      && block.sci.lines[|doc|..] == if BlockEnd(doc, s, end) == |doc| then [""] else []
  {
    hide Balanced, BlockEnd, LineOf, PositionOf, Partner, PairRemoved, InDocument, WhiteLen, Body, Restored;
    ghost var doc := block.sci.lines;
    var s := LineOf(block.sci.lines, start);
    var col := WhiteLen(block.sci.lines[s]);
    ghost var t := BlockEnd(doc, s, end);
    block.EncloseBlock(start, end, width, false, true);
    RemovingUndoesEnclosing(doc, block.sci.lines, s, t, block.sci.tabs, width);
    CaretAfterBracket(block.sci.lines, s, col);
    block.sci.caret := PositionOf(block.sci.lines, s) + col + 1;
    var action := backspace.HandleBackspace(true, width);
  }
}
