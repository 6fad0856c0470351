/**
 The bookmark list of the sidebar, ao_bookmarklist.c, for one document.
 */
module BookmarkList {
  import opened Common

  /** A row: the line number as shown, and the text of the line. */
  datatype Row = Row(line: int, name: string)

  // ----- The document

  predicate IsSpace(c: char) {
    c in " \t\n\r\U{000C}"
  }

  /** g_strstrip */
  function Strip(s: string): string {
    if s != "" && IsSpace(s[0]) then Strip(s[1..])
    else if s != "" && IsSpace(s[|s| - 1]) then Strip(s[..|s| - 1])
    else s
  }

  function Label(line: string): string {
    if Strip(line) == "" then "(Empty Line)" else Strip(line)
  }

  ghost predicate White(s: string) {
    forall c | c in s :: IsSpace(c)
  }

  /** White space goes at both ends, and only there. */
  lemma {:induction false} StripIs(s: string) returns (a: string, b: string)
    ensures s == a + Strip(s) + b && White(a) && White(b)
    ensures Strip(s) == "" || (!IsSpace(Strip(s)[0]) && !IsSpace(Strip(s)[|Strip(s)| - 1]))
  {
    hide IsSpace;
    a, b := "", "";
    if s != "" && IsSpace(s[0]) {
      a, b := StripIs(s[1..]);
      StripLeft(s, a, Strip(s[1..]), b);
      a := [s[0]] + a;
    } else if s != "" && IsSpace(s[|s| - 1]) {
      var n := |s| - 1;
      a, b := StripIs(s[..n]);
      StripRight(s, a, Strip(s[..n]), b);
      b := b + [s[n]];
    }
  }

  lemma StripLeft(s: string, a: string, t: string, b: string)
    requires s != "" && s[1..] == a + t + b && White(a) && IsSpace(s[0])
    ensures s == [s[0]] + a + t + b && White([s[0]] + a)
  {
    hide IsSpace;
    assert s == [s[0]] + s[1..];
  }

  lemma StripRight(s: string, a: string, t: string, b: string)
    requires s != "" && s[..|s| - 1] == a + t + b && White(b) && IsSpace(s[|s| - 1])
    ensures s == a + t + (b + [s[|s| - 1]]) && White(b + [s[|s| - 1]])
  {
    hide IsSpace;
    assert s == s[..|s| - 1] + [s[|s| - 1]];
  }

  /** A line of white space, and no other, has the label for empty lines; every other label begins and ends in ink. */
  lemma LabelIs(line: string) returns (a: string, b: string)
    ensures White(line) ==> Label(line) == "(Empty Line)"
    ensures !White(line) ==>
      Label(line) != "" && line == a + Label(line) + b && White(a) && White(b) &&
      !IsSpace(Label(line)[0]) && !IsSpace(Label(line)[|Label(line)| - 1])
  {
    a, b := StripIs(line);
    var s := Strip(line);
    if s == "" {
      assert line == a + b;
    } else {
      assert line[|a|] == s[0];
    }
  }

  /** Lines and bookmarks (marker 1) of a Scintilla document. */
  class Document {
    var lines: seq<string>
    var marked: set<int>

    ghost predicate Valid()
      reads this
    {
      forall l | l in marked :: 0 <= l < |lines|
    }

    constructor (lines: seq<string>)
      ensures Valid() && this.lines == lines && marked == {}
    {
      this.lines, marked := lines, {};
    }

    /** SCI_MARKERNEXT: the first bookmark at or after a line, or -1. */
    function MarkerNext(from: nat): (line: int)
      reads this
      requires Valid()
      ensures line == -1 || (from <= line < |lines| && line in marked)
      ensures forall l | l in marked && from <= l :: line != -1 && line <= l
      decreases |lines| - from
    {
      if from >= |lines| then -1 else if from in marked then from else MarkerNext(from + 1)
    }
  }

  // ----- Rows

  /** The rows are sorted by line, no line is there twice, and lines count from 1. */
  ghost predicate Ascending(rows: seq<Row>) {
    && (forall i, j | 0 <= i < j < |rows| :: rows[i].line < rows[j].line)
    && (forall i | 0 <= i < |rows| :: rows[i].line > 0)
  }

  ghost predicate HasLine(rows: seq<Row>, line: int) {
    exists i :: 0 <= i < |rows| && rows[i].line == line
  }

  /** The rows show exactly the bookmarks. */
  ghost predicate ShowsMarks(rows: seq<Row>, marked: set<int>) {
    forall l :: HasLine(rows, l) <==> l - 1 in marked
  }

  /** Where a row with this line goes in a sorted store. */
  function SortedPlace(rows: seq<Row>, line: int): (p: nat)
    ensures p <= |rows|
    ensures forall i | 0 <= i < p :: rows[i].line < line
    ensures p < |rows| ==> rows[p].line >= line
  {
    if rows == [] || rows[0].line >= line then 0 else 1 + SortedPlace(rows[1..], line)
  }

  function RowAt(rows: seq<Row>, line: int): (found: Option<nat>)
    ensures found.Some? ==> found.value < |rows| && rows[found.value].line == line
    ensures found.None? ==> !HasLine(rows, line)
  {
    if rows == [] then None
    else if rows[0].line == line then Some(0)
    else
      var rest := RowAt(rows[1..], line);
      assert forall i | 0 < i < |rows| :: rows[i] == rows[1..][i - 1];
      if rest.Some? then Some(rest.value + 1) else None
  }

  /** What add_line does to the rows. */
  function WithRow(rows: seq<Row>, row: Row): seq<Row> {
    var found := RowAt(rows, row.line);
    var p := SortedPlace(rows, row.line);
    if found.Some? then rows[found.value := row] else rows[..p] + [row] + rows[p..]
  }

  /** What delete_line does to the rows. */
  function WithoutRow(rows: seq<Row>, line: int): seq<Row> {
    var found := RowAt(rows, line);
    if found.Some? then rows[..found.value] + rows[found.value + 1..] else rows
  }

  /** A row found at `i` and replaced, or inserted at `i`, changes no other row. */
  lemma ReplacedRow(rows: seq<Row>, i: nat, row: Row)
    requires Ascending(rows) && i < |rows| && rows[i].line == row.line
    ensures Ascending(rows[i := row])
    ensures forall r :: r in rows[i := row] <==> r == row || (r in rows && r.line != row.line)
  {
    var rows' := rows[i := row];
    assert rows'[i] == row;
    forall r | r in rows && r.line != row.line
      ensures r in rows'
    {
      var k :| 0 <= k < |rows| && rows[k] == r;
      assert rows'[k] == r;
    }
  }

  lemma JoinedAscends(a: seq<Row>, b: seq<Row>)
    requires Ascending(a) && Ascending(b)
    requires a != [] && b != [] ==> a[|a| - 1].line < b[0].line
    ensures Ascending(a + b)
  {
    forall i, j | 0 <= i < j < |a + b|
      ensures (a + b)[i].line < (a + b)[j].line
    {
      if i < |a| <= j {
        assert a[i].line <= a[|a| - 1].line < b[0].line <= b[j - |a|].line;
      }
    }
  }

  lemma InsertedRow(rows: seq<Row>, row: Row)
    requires Ascending(rows) && row.line > 0 && !HasLine(rows, row.line)
    ensures var p := SortedPlace(rows, row.line); Ascending(rows[..p] + [row] + rows[p..])
  {
    var p := SortedPlace(rows, row.line);
    JoinedAscends(rows[..p], [row]);
    JoinedAscends(rows[..p] + [row], rows[p..]);
  }

  lemma InsertedMembers(rows: seq<Row>, p: nat, row: Row)
    requires p <= |rows| && !HasLine(rows, row.line)
    ensures forall r :: r in rows[..p] + [row] + rows[p..] <==> r == row || (r in rows && r.line != row.line)
  {
    assert rows == rows[..p] + rows[p..];
    NoSuchRow(rows, row.line);
  }

  /** Adding a row: the list stays sorted, the line's row is the new one, all other rows are kept. */
  lemma WithRowAscends(rows: seq<Row>, row: Row)
    requires Ascending(rows) && row.line > 0
    ensures Ascending(WithRow(rows, row))
    ensures forall r :: r in WithRow(rows, row) <==> r == row || (r in rows && r.line != row.line)
  {
    hide Ascending, HasLine;
    var found := RowAt(rows, row.line);
    if found.Some? {
      ReplacedRow(rows, found.value, row);
    } else {
      InsertedRow(rows, row);
      InsertedMembers(rows, SortedPlace(rows, row.line), row);
    }
  }

  lemma RemovedAscends(rows: seq<Row>, i: nat)
    requires Ascending(rows) && i < |rows|
    ensures Ascending(rows[..i] + rows[i + 1..])
  {
    JoinedAscends(rows[..i], rows[i + 1..]);
  }

  lemma RemovedMembers(rows: seq<Row>, i: nat)
    requires Ascending(rows) && i < |rows|
    ensures forall r :: r in rows[..i] + rows[i + 1..] <==> r in rows && r.line != rows[i].line
  {
    assert rows == rows[..i] + [rows[i]] + rows[i + 1..];
  }

  lemma NoSuchRow(rows: seq<Row>, line: int)
    requires !HasLine(rows, line)
    ensures forall r | r in rows :: r.line != line
  {
    forall r | r in rows
      ensures r.line != line
    {
      assert HasLine(rows, r.line);
    }
  }

  /** Deleting a line's row: the list stays sorted, all other rows are kept. */
  lemma WithoutRowAscends(rows: seq<Row>, line: int)
    requires Ascending(rows)
    ensures Ascending(WithoutRow(rows, line))
    ensures forall r :: r in WithoutRow(rows, line) <==> r in rows && r.line != line
  {
    hide Ascending, HasLine;
    var found := RowAt(rows, line);
    if found.Some? {
      RemovedAscends(rows, found.value);
      RemovedMembers(rows, found.value);
    } else {
      NoSuchRow(rows, line);
    }
  }

  lemma HasLineIsMember(rows: seq<Row>, line: int)
    ensures HasLine(rows, line) <==> exists r :: r in rows && r.line == line
  {
    if r :| r in rows && r.line == line {
      var i :| 0 <= i < |rows| && rows[i] == r;
      assert rows[i].line == line;
    }
    if HasLine(rows, line) {
      var i :| 0 <= i < |rows| && rows[i].line == line;
      assert rows[i] in rows;
    }
  }

  lemma AddedMark(rows: seq<Row>, row: Row, marked: set<int>)
    requires Ascending(rows) && ShowsMarks(rows, marked) && row.line > 0
    ensures ShowsMarks(WithRow(rows, row), marked + {row.line - 1})
  {
    hide WithRow, HasLine;
    WithRowAscends(rows, row);
    forall l
      ensures HasLine(WithRow(rows, row), l) <==> l - 1 in marked + {row.line - 1}
    {
      HasLineIsMember(rows, l);
      HasLineIsMember(WithRow(rows, row), l);
    }
  }

  lemma RemovedMark(rows: seq<Row>, line: int, marked: set<int>)
    requires Ascending(rows) && ShowsMarks(rows, marked)
    ensures ShowsMarks(WithoutRow(rows, line), marked - {line - 1})
  {
    hide WithoutRow, HasLine;
    WithoutRowAscends(rows, line);
    forall l
      ensures HasLine(WithoutRow(rows, line), l) <==> l - 1 in marked - {line - 1}
    {
      HasLineIsMember(rows, l);
      HasLineIsMember(WithoutRow(rows, line), l);
    }
  }

  // ----- The full rescan

  /** The rows of all bookmarks at or after a line, with the present text of their lines. */
  function Rescan(lines: seq<string>, marked: set<int>, from: nat): seq<Row>
    decreases |lines| - from
  {
    if from >= |lines| then []
    else (if from in marked then [Row(from + 1, Label(lines[from]))] else []) + Rescan(lines, marked, from + 1)
  }

  lemma HereAscends(line: nat, name: string, here: seq<Row>)
    requires line > 0 && (here == [] || here == [Row(line, name)])
    ensures Ascending(here)
  {
  }

  lemma {:induction false} RescanAscends(lines: seq<string>, marked: set<int>, from: nat)
    ensures Ascending(Rescan(lines, marked, from))
    ensures forall i | 0 <= i < |Rescan(lines, marked, from)| :: Rescan(lines, marked, from)[i].line > from
    decreases |lines| - from
  {
    hide Label, Ascending;
    if from < |lines| {
      RescanAscends(lines, marked, from + 1);
      var here := if from in marked then [Row(from + 1, Label(lines[from]))] else [];
      HereAscends(from + 1, Label(lines[from]), here);
      JoinedAscends(here, Rescan(lines, marked, from + 1));
    } else {
      HereAscends(1, "", []);
    }
  }

  lemma {:induction false} RescanHas(lines: seq<string>, marked: set<int>, from: nat, line: int)
    ensures HasLine(Rescan(lines, marked, from), line) <==> line - 1 in marked && from <= line - 1 < |lines|
    decreases |lines| - from
  {
    hide Label;
    if from < |lines| {
      RescanHas(lines, marked, from + 1, line);
      var rest, rows := Rescan(lines, marked, from + 1), Rescan(lines, marked, from);
      if from in marked {
        assert rows[0].line == from + 1 && rows[1..] == rest;
        ConsHasLine(rows, line);
      } else {
        assert rows == rest;
      }
    }
  }

  lemma ConsHasLine(rows: seq<Row>, line: int)
    requires rows != []
    ensures HasLine(rows, line) <==> rows[0].line == line || HasLine(rows[1..], line)
  {
    if HasLine(rows[1..], line) {
      var i :| 0 <= i < |rows[1..]| && rows[1..][i].line == line;
      assert rows[i + 1].line == line;
    }
    if HasLine(rows, line) && rows[0].line != line {
      var i :| 0 <= i < |rows| && rows[i].line == line;
      assert rows[1..][i - 1].line == line;
    }
  }

  /** The rescan shows exactly the bookmarks. */
  lemma RescanShows(lines: seq<string>, marked: set<int>)
    requires forall l | l in marked :: 0 <= l < |lines|
    ensures Ascending(Rescan(lines, marked, 0)) && ShowsMarks(Rescan(lines, marked, 0), marked)
  {
    hide HasLine, Rescan, Ascending;
    RescanAscends(lines, marked, 0);
    forall l
      ensures HasLine(Rescan(lines, marked, 0), l) <==> l - 1 in marked
    {
      RescanHas(lines, marked, 0, l);
    }
  }

  /** Nothing is between a line and the next bookmark. */
  lemma {:induction false} RescanFrom(lines: seq<string>, marked: set<int>, from: nat, next: int)
    requires forall l | l in marked :: 0 <= l < |lines|
    requires next == -1 || (from <= next < |lines| && next in marked)
    requires forall l | l in marked && from <= l :: next != -1 && next <= l
    ensures Rescan(lines, marked, from) == if next == -1 then [] else Rescan(lines, marked, next)
    decreases |lines| - from
  {
    if from < |lines| && from != next { RescanFrom(lines, marked, from + 1, next); }
  }

  lemma RescanHere(lines: seq<string>, marked: set<int>, from: nat)
    requires from < |lines| && from in marked
    ensures Rescan(lines, marked, from) == [Row(from + 1, Label(lines[from]))] + Rescan(lines, marked, from + 1)
  {
  }

  lemma AppendRow(rows: seq<Row>, row: Row)
    requires forall i | 0 <= i < |rows| :: rows[i].line < row.line
    ensures WithRow(rows, row) == rows + [row]
  {
    assert rows[..|rows|] == rows && rows[|rows|..] == [];
  }

  function ToCome(lines: seq<string>, marked: set<int>, next: int): seq<Row> {
    if next < 0 then [] else Rescan(lines, marked, next)
  }

  lemma RescanStep(lines: seq<string>, marked: set<int>, rows: seq<Row>, line: nat, next: int)
    requires (forall l | l in marked :: 0 <= l < |lines|) && line in marked
    requires next == -1 || (line < next < |lines| && next in marked)
    requires forall l | l in marked && line < l :: next != -1 && next <= l
    requires forall i | 0 <= i < |rows| :: rows[i].line <= line
    ensures var rows' := WithRow(rows, Row(line + 1, Label(lines[line])));
      && rows' + ToCome(lines, marked, next) == rows + ToCome(lines, marked, line)
      && forall i | 0 <= i < |rows'| :: rows'[i].line <= line + 1
  {
    hide Rescan, WithRow, Label;
    AppendRow(rows, Row(line + 1, Label(lines[line])));
    RescanHere(lines, marked, line);
    RescanFrom(lines, marked, line + 1, next);
  }

  /** Sorted rows of the same bookmarks have the same lines in the same order. */
  lemma {:induction false} SameLines(a: seq<Row>, b: seq<Row>)
    requires Ascending(a) && Ascending(b)
    requires forall l :: HasLine(a, l) <==> HasLine(b, l)
    ensures |a| == |b| && forall i | 0 <= i < |a| :: a[i].line == b[i].line
    decreases |a|
  {
    if a == [] {
      if b != [] { assert HasLine(b, b[0].line); }
    } else {
      assert HasLine(a, a[0].line);
      var i :| 0 <= i < |b| && b[i].line == a[0].line;
      assert HasLine(b, b[0].line);
      var j :| 0 <= j < |a| && a[j].line == b[0].line;
      forall l
        ensures HasLine(a[1..], l) <==> HasLine(b[1..], l)
      {
        TailLines(a, l);
        TailLines(b, l);
      }
      SameLines(a[1..], b[1..]);
      assert forall k | 0 < k < |a| :: a[k] == a[1..][k - 1] && b[k] == b[1..][k - 1];
    }
  }

  lemma TailLines(a: seq<Row>, l: int)
    requires a != [] && Ascending(a)
    ensures HasLine(a[1..], l) <==> HasLine(a, l) && l != a[0].line
  {
    ConsHasLine(a, l);
    assert forall i | 0 <= i < |a| - 1 :: a[1..][i] == a[i + 1];
  }

  /** However they came about, rows that show the bookmarks have the lines that a rescan finds. */
  lemma ShownAsRescanned(rows: seq<Row>, lines: seq<string>, marked: set<int>)
    requires Ascending(rows) && ShowsMarks(rows, marked) && forall l | l in marked :: 0 <= l < |lines|
    ensures var scan := Rescan(lines, marked, 0);
      |rows| == |scan| && forall i | 0 <= i < |rows| :: rows[i].line == scan[i].line
  {
    RescanShows(lines, marked);
    SameLines(rows, Rescan(lines, marked, 0));
  }

  // ----- The list

  /** The modifications that Scintilla reports. */
  datatype Notification = ChangeMarker(line: int) | TextChanged(linesAdded: int)

  class AoBookmarkList {
    const doc: Document
    var rows: seq<Row>
    var searchLine: int
    var searchIter: Option<nat>
    var enabled: bool
    /** Whether the idle callback is queued (refresh_idle_source_id). */
    var refreshQueued: bool

    /** The rows are always sorted; when the list is enabled and no refresh is queued, they show the bookmarks. */
    ghost predicate Valid()
      reads this, doc
    {
      && doc.Valid()
      && Ascending(rows)
      && (enabled && !refreshQueued ==> ShowsMarks(rows, doc.marked))
    }

    constructor (doc: Document, enable: bool)
      requires doc.Valid()
      ensures Valid() && this.doc == doc && enabled == enable && refreshQueued == enable
    {
      this.doc := doc;
      rows, searchLine, searchIter, enabled, refreshQueued := [], 0, None, enable, enable;
    }

    /** gtk_tree_model_foreach with tree_model_foreach */
    method Search(line: int)
      modifies `searchLine, `searchIter
      ensures searchIter == RowAt(rows, line)
    {
      searchLine := line;
      searchIter := None;
      var i := 0;
      while i < |rows|
        invariant 0 <= i <= |rows| && searchIter == None && searchLine == line
        invariant RowAt(rows, line) == match RowAt(rows[i..], line) case Some(k) => Some(i + k) case None => None
      {
        if rows[i].line == searchLine {
          searchIter := Some(i);
          return;
        }
        assert rows[i..][1..] == rows[i + 1..];
        i := i + 1;
      }
    }

    method DeleteLine(lineNr: int)
      modifies `rows, `searchLine, `searchIter
      ensures rows == WithoutRow(old(rows), lineNr + 1)
    {
      Search(lineNr + 1);
      if searchIter.Some? {
        rows := rows[..searchIter.value] + rows[searchIter.value + 1..];
      }
    }

    method AddLine(lineNr: int)
      requires 0 <= lineNr < |doc.lines|
      modifies `rows, `searchLine, `searchIter
      ensures rows == WithRow(old(rows), Row(lineNr + 1, Label(doc.lines[lineNr])))
    {
      var row := Row(lineNr + 1, Label(doc.lines[lineNr]));
      Search(lineNr + 1);
      if searchIter.Some? {
        rows := rows[searchIter.value := row];
      } else {
        var p := SortedPlace(rows, row.line);
        rows := rows[..p] + [row] + rows[p..];
      }
    }

    /** The loop of update_bookmark_list_delayed */
    method AddAll()
      requires doc.Valid() && rows == []
      modifies `rows, `searchLine, `searchIter
      ensures rows == Rescan(doc.lines, doc.marked, 0)
    {
      hide Rescan, WithRow, Label, Document.MarkerNext;
      var lineNr := doc.MarkerNext(0);
      RescanFrom(doc.lines, doc.marked, 0, lineNr);
      while lineNr != -1
        invariant -1 <= lineNr < |doc.lines|
        invariant lineNr != -1 ==> lineNr in doc.marked
        invariant lineNr != -1 ==> forall i | 0 <= i < |rows| :: rows[i].line <= lineNr
        invariant Rescan(doc.lines, doc.marked, 0) == rows + ToCome(doc.lines, doc.marked, lineNr)
        decreases if lineNr == -1 then 0 else |doc.lines| - lineNr
      {
        var next := doc.MarkerNext(lineNr + 1);
        RescanStep(doc.lines, doc.marked, rows, lineNr, next);
        AddLine(lineNr);
        lineNr := next;
      }
    }

    /** update_bookmark_list_delayed, when the main loop is idle */
    method UpdateDelayed()
      requires Valid() && refreshQueued
      modifies this
      ensures Valid() && !refreshQueued && enabled == old(enabled)
      ensures rows == if enabled then Rescan(doc.lines, doc.marked, 0) else old(rows)
    {
      hide Rescan, Ascending, ShowsMarks;
      if enabled {
        rows := [];
        AddAll();
        RescanShows(doc.lines, doc.marked);
      }
      refreshQueued := false;
    }

    /** ao_bookmark_list_update */
    method Update()
      requires doc.Valid() && Ascending(rows)
      modifies `refreshQueued
      ensures refreshQueued
    {
      if !refreshQueued { refreshQueued := true; }
    }

    /** ao_bookmark_list_set_property; a new list store is empty. */
    method SetEnabled(enable: bool)
      requires Valid()
      modifies this
      ensures Valid() && enabled == enable
      ensures enable && !old(enabled) ==> refreshQueued && rows == []
      ensures !(enable && !old(enabled)) ==> rows == old(rows) && refreshQueued == old(refreshQueued)
    {
      if enable && !enabled {
        rows := [];
        Update();
      }
      enabled := enable;
    }

    /** ao_bookmark_list_update_marker */
    method UpdateMarker(n: Notification)
      requires doc.Valid() && Ascending(rows)
      requires n.ChangeMarker? && n.line in doc.marked ==> 0 <= n.line < |doc.lines|
      modifies this
      ensures enabled == old(enabled)
      ensures refreshQueued == (old(refreshQueued) || (enabled && n.TextChanged? && n.linesAdded != 0))
      ensures rows ==
        if !enabled || !n.ChangeMarker? then old(rows)
        else if n.line in doc.marked then WithRow(old(rows), Row(n.line + 1, Label(doc.lines[n.line])))
        else WithoutRow(old(rows), n.line + 1)
    {
      hide Ascending, WithRow, WithoutRow, Label;
      if enabled {
        if n.ChangeMarker? {
          if n.line in doc.marked {
            AddLine(n.line);
          } else {
            DeleteLine(n.line);
          }
        } else if n.linesAdded != 0 {
          Update();
        }
      }
    }

    // ----- What may happen to the document

    /** The user sets or removes one bookmark. */
    method ToggleMark(line: nat, on: bool)
      requires Valid() && line < |doc.lines|
      modifies this, doc
      ensures Valid() && doc.lines == old(doc.lines)
      ensures doc.marked == if on then old(doc.marked) + {line} else old(doc.marked) - {line}
      ensures enabled == old(enabled) && refreshQueued == old(refreshQueued)
      ensures rows ==
        if !enabled then old(rows)
        else if on then WithRow(old(rows), Row(line + 1, Label(doc.lines[line])))
        else WithoutRow(old(rows), line + 1)
    {
      hide WithRow, WithoutRow, Ascending, ShowsMarks, Label;
      ghost var was, marked := rows, doc.marked;
      doc.marked := if on then doc.marked + {line} else doc.marked - {line};
      WithRowAscends(was, Row(line + 1, Label(doc.lines[line])));
      WithoutRowAscends(was, line + 1);
      if ShowsMarks(was, marked) {
        AddedMark(was, Row(line + 1, Label(doc.lines[line])), marked);
        RemovedMark(was, line + 1, marked);
      }
      UpdateMarker(ChangeMarker(line));
    }

    /** The text changes; when the number of lines changes, Scintilla moves and merges bookmarks as it likes. */
    method Edit(lines: seq<string>, marked: set<int>, linesAdded: int)
      requires Valid() && forall l | l in marked :: 0 <= l < |lines|
      requires linesAdded == |lines| - |doc.lines| && (linesAdded == 0 ==> marked == doc.marked)
      modifies this, doc
      ensures Valid() && doc.lines == lines && doc.marked == marked && enabled == old(enabled) && rows == old(rows)
      ensures refreshQueued == (old(refreshQueued) || (enabled && linesAdded != 0))
    {
      doc.lines, doc.marked := lines, marked;
      UpdateMarker(TextChanged(linesAdded));
    }

    /** All bookmarks are removed at once, which Scintilla reports with line -1. */
    method DeleteAllMarks()
      requires Valid()
      modifies this, doc
      ensures doc.Valid() && doc.marked == {} && rows == old(rows)
      ensures Valid() <==> old(doc.marked) == {} || !enabled || refreshQueued
    {
      if doc.marked != {} {
        ghost var line := Member(doc.marked);
        doc.marked := {};
        assert enabled && !refreshQueued ==> HasLine(rows, line + 1);
        assert RowAt(rows, 0).None?;
        UpdateMarker(ChangeMarker(-1));
      }
    }

    // ----- Runs

    function Value(): State
      reads this, doc
    {
      State(doc.lines, doc.marked, rows, enabled, refreshQueued)
    }

    method Handle(event: Event)
      requires Valid()
      modifies this, doc
      ensures Valid() && Value() == After(old(Value()), event)
    {
      hide Ascending, ShowsMarks, WithRow, WithoutRow, Rescan, Label;
      match event
      case Toggle(line, on) =>
        if line < |doc.lines| { ToggleMark(line, on); }
      case NewText(lines, marked) =>
        Edit(lines, MarksAfter(doc.lines, doc.marked, lines, marked), |lines| - |doc.lines|);
      case Enable(on) => SetEnabled(on);
      case Idle =>
        if refreshQueued { UpdateDelayed(); }
    }

    /** Whatever happens to the document and the list, the rows show the bookmarks when no refresh is queued. */
    method Run(events: seq<Event>)
      requires Valid()
      modifies this, doc
      ensures Valid() && Value() == AfterAll(old(Value()), events)
      ensures enabled && !refreshQueued ==> ShowsMarks(rows, doc.marked)
    {
      hide After;
      for i := 0 to |events|
        invariant Valid() && Value() == AfterAll(old(Value()), events[..i])
      {
        assert events[..i + 1][..i] == events[..i];
        Handle(events[i]);
      }
      assert events[..|events|] == events;
    }
  }

  /** Something that happens while the plugin is loaded. */
  datatype Event = Toggle(line: nat, on: bool) | NewText(lines: seq<string>, marked: set<int>) | Enable(on: bool) | Idle

  /** The document, the rows and the state of the list. */
  datatype State = State(lines: seq<string>, marked: set<int>, rows: seq<Row>, enabled: bool, queued: bool)

  /** The bookmarks after a change of the text: Scintilla may move them only if the number of lines changes. */
  function MarksAfter(was: seq<string>, wereMarked: set<int>, lines: seq<string>, marked: set<int>): set<int> {
    if |lines| == |was| then wereMarked else set l | l in marked && 0 <= l < |lines|
  }

  function After(s: State, e: Event): State {
    match e
    case Toggle(line, on) =>
      if line >= |s.lines| then s
      else s.(
        marked := if on then s.marked + {line} else s.marked - {line},
        rows := if !s.enabled then s.rows
                else if on then WithRow(s.rows, Row(line + 1, Label(s.lines[line])))
                else WithoutRow(s.rows, line + 1))
    case NewText(lines, marked) =>
      s.(lines := lines, marked := MarksAfter(s.lines, s.marked, lines, marked),
         queued := s.queued || (s.enabled && |lines| != |s.lines|))
    case Enable(on) => if on && !s.enabled then s.(rows := [], enabled := true, queued := true) else s.(enabled := on)
    case Idle =>
      if !s.queued then s
      else s.(rows := if s.enabled then Rescan(s.lines, s.marked, 0) else s.rows, queued := false)
  }

  function AfterAll(s: State, events: seq<Event>): State
    decreases |events|
  {
    if events == [] then s else After(AfterAll(s, events[..|events| - 1]), events[|events| - 1])
  }
}
