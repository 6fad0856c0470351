/**
 Matching brackets in a document, as Scintilla finds them line by line to the right and to the
 left, and as they pair up in the text between them.
 */
module Brackets {
  import opened Common
  import opened Scintilla

  // ----- Looking for a bracket

  /** The result of looking for a bracket in one line: its column, or how deep the line's end is. */
  datatype Scan = At(col: nat) | Depth(depth: nat)

  /** A place in the document. */
  datatype Place = Place(line: nat, col: nat)

  function ScanRight(s: string, i: nat, left: char, right: char, depth: nat): (r: Scan)
    requires i <= |s| && depth > 0 && left != right
    ensures r.At? ==> i <= r.col < |s| && s[r.col] == right
    ensures r.Depth? ==> r.depth > 0
    decreases |s| - i
  {
    if i == |s| then Depth(depth)
    else if s[i] == left then ScanRight(s, i + 1, left, right, depth + 1)
    else if s[i] == right then (if depth == 1 then At(i) else ScanRight(s, i + 1, left, right, depth - 1))
    else ScanRight(s, i + 1, left, right, depth)
  }

  function ScanLeft(s: string, i: nat, left: char, right: char, depth: nat): (r: Scan)
    requires i <= |s| && depth > 0 && left != right
    ensures r.At? ==> r.col < i && s[r.col] == left
    ensures r.Depth? ==> r.depth > 0
  {
    if i == 0 then Depth(depth)
    else if s[i - 1] == right then ScanLeft(s, i - 1, left, right, depth + 1)
    else if s[i - 1] == left then (if depth == 1 then At(i - 1) else ScanLeft(s, i - 1, left, right, depth - 1))
    else ScanLeft(s, i - 1, left, right, depth)
  }

  function MatchRight(doc: Doc, line: nat, i: nat, left: char, right: char, depth: nat): (r: Option<Place>)
    requires line < |doc| && i <= |doc[line]| && depth > 0 && left != right
    ensures r.Some? ==> line <= r.value.line < |doc| && r.value.col < |doc[r.value.line]| && doc[r.value.line][r.value.col] == right
    ensures r.Some? && r.value.line == line ==> i <= r.value.col
    decreases |doc| - line
  {
    var scan := ScanRight(doc[line], i, left, right, depth);
    if scan.At? then Some(Place(line, scan.col))
    else if line + 1 == |doc| then None
    else MatchRight(doc, line + 1, 0, left, right, scan.depth)
  }

  function MatchLeft(doc: Doc, line: nat, i: nat, left: char, right: char, depth: nat): (r: Option<Place>)
    requires line < |doc| && i <= |doc[line]| && depth > 0 && left != right
    ensures r.Some? ==> r.value.line <= line && r.value.col < |doc[r.value.line]| && doc[r.value.line][r.value.col] == left
    ensures r.Some? && r.value.line == line ==> r.value.col < i
  {
    var scan := ScanLeft(doc[line], i, left, right, depth);
    if scan.At? then Some(Place(line, scan.col))
    else if line == 0 then None
    else MatchLeft(doc, line - 1, |doc[line - 1]|, left, right, scan.depth)
  }

  /** sci_find_matching_brace for the bracket at a place */
  function FindMatching(doc: Doc, at: Place, left: char, right: char): (r: Option<Place>)
    requires at.line < |doc| && at.col < |doc[at.line]| && left != right
    requires doc[at.line][at.col] == left || doc[at.line][at.col] == right
    ensures r.Some? ==> r.value.line < |doc| && r.value.col < |doc[r.value.line]| && r.value != at
    ensures r.Some? ==> {doc[at.line][at.col], doc[r.value.line][r.value.col]} == {left, right}
  {
    if doc[at.line][at.col] == left then MatchRight(doc, at.line, at.col + 1, left, right, 1)
    else MatchLeft(doc, at.line, at.col, left, right, 1)
  }

  // ----- What is between two brackets

  /** How many brackets of a text are left over when all pairs in it are taken away: first closing, then opening ones. */
  datatype Unmatched = Unmatched(closing: nat, opening: nat)

  /** Another bracket in front. */
  function Before(c: char, u: Unmatched, left: char, right: char): Unmatched {
    if c == left then (if u.closing > 0 then u.(closing := u.closing - 1) else u.(opening := u.opening + 1))
    else if c == right then u.(closing := u.closing + 1)
    else u
  }

  /** Another bracket behind. */
  function Behind(u: Unmatched, c: char, left: char, right: char): Unmatched {
    if c == right then (if u.opening > 0 then u.(opening := u.opening - 1) else u.(closing := u.closing + 1))
    else if c == left then u.(opening := u.opening + 1)
    else u
  }

  function Reduce(s: string, left: char, right: char): Unmatched {
    if s == "" then Unmatched(0, 0) else Before(s[0], Reduce(s[1..], left, right), left, right)
  }

  lemma {:induction false} ReduceBehind(s: string, c: char, left: char, right: char)
    requires left != right
    ensures Reduce(s + [c], left, right) == Behind(Reduce(s, left, right), c, left, right)
  {
    if s == "" {
      assert "" + [c] == [c];
      assert Reduce([c][1..], left, right) == Unmatched(0, 0);
    } else {
      assert (s + [c])[0] == s[0] && (s + [c])[1..] == s[1..] + [c];
      ReduceBehind(s[1..], c, left, right);
    }
  }

  /** The depth behind a text that is entered at `depth`, or None if that falls to 0 inside. */
  function Level(u: Unmatched, depth: nat): Option<nat> {
    if u.closing < depth then Some(depth - u.closing + u.opening) else None
  }

  /** The same from the right. */
  function LevelLeft(u: Unmatched, depth: nat): Option<nat> {
    if u.opening < depth then Some(depth - u.opening + u.closing) else None
  }

  /** The text from column `i` of `line` to column `j` of `end`, without line ends. */
  function Span(doc: Doc, line: nat, i: nat, end: nat, j: nat): string
    requires line <= end < |doc| && i <= |doc[line]| && j <= |doc[end]| && (line == end ==> i <= j)
    decreases end - line
  {
    if line == end then doc[line][i..j] else doc[line][i..] + Span(doc, line + 1, 0, end, j)
  }

  lemma {:induction false} SpanBack(doc: Doc, line: nat, i: nat, end: nat, j: nat)
    requires line < end < |doc| && i <= |doc[line]| && j <= |doc[end]|
    ensures Span(doc, line, i, end, j) == Span(doc, line, i, end - 1, |doc[end - 1]|) + doc[end][..j]
    decreases end - line
  {
    if line + 1 == end {
      assert doc[line][i..|doc[line]|] == doc[line][i..];
      assert doc[end][0..j] == doc[end][..j];
    } else {
      SpanBack(doc, line + 1, 0, end, j);
      Assoc(doc[line][i..], Span(doc, line + 1, 0, end - 1, |doc[end - 1]|), doc[end][..j]);
    }
  }

  lemma Assoc(a: string, b: string, c: string)
    ensures a + (b + c) == (a + b) + c
  {
  }

  // ----- What is found

  lemma {:induction false} ScanRightIs(s: string, i: nat, left: char, right: char, depth: nat, q: nat)
    requires i <= q < |s| && depth > 0 && left != right
    ensures ScanRight(s, i, left, right, depth) == At(q) <==> s[q] == right && Level(Reduce(s[i..q], left, right), depth) == Some(1)
    decreases |s| - i
  {
    if i < q {
      assert s[i..q][0] == s[i] && s[i..q][1..] == s[i + 1..q];
      if !(s[i] == right && depth == 1) {
        ScanRightIs(s, i + 1, left, right, if s[i] == left then depth + 1 else if s[i] == right then depth - 1 else depth, q);
      }
    }
  }

  lemma {:induction false} ScanRightDepth(s: string, i: nat, left: char, right: char, depth: nat, d: nat)
    requires i <= |s| && depth > 0 && left != right
    ensures ScanRight(s, i, left, right, depth) == Depth(d) <==> Level(Reduce(s[i..], left, right), depth) == Some(d)
    decreases |s| - i
  {
    if i < |s| {
      assert s[i..][0] == s[i] && s[i..][1..] == s[i + 1..];
      if !(s[i] == right && depth == 1) {
        ScanRightDepth(s, i + 1, left, right, if s[i] == left then depth + 1 else if s[i] == right then depth - 1 else depth, d);
      }
    }
  }

  lemma {:induction false} ScanLeftIs(s: string, i: nat, left: char, right: char, depth: nat, p: nat)
    requires p < i <= |s| && depth > 0 && left != right
    ensures ScanLeft(s, i, left, right, depth) == At(p) <==> s[p] == left && LevelLeft(Reduce(s[p + 1..i], left, right), depth) == Some(1)
    decreases i
  {
    if p + 1 < i {
      assert s[p + 1..i] == s[p + 1..i - 1] + [s[i - 1]];
      ReduceBehind(s[p + 1..i - 1], s[i - 1], left, right);
      if !(s[i - 1] == left && depth == 1) {
        ScanLeftIs(s, i - 1, left, right, if s[i - 1] == right then depth + 1 else if s[i - 1] == left then depth - 1 else depth, p);
      }
    }
  }

  lemma {:induction false} ScanLeftDepth(s: string, i: nat, left: char, right: char, depth: nat, d: nat)
    requires i <= |s| && depth > 0 && left != right
    ensures ScanLeft(s, i, left, right, depth) == Depth(d) <==> LevelLeft(Reduce(s[..i], left, right), depth) == Some(d)
    decreases i
  {
    if i > 0 {
      assert s[..i] == s[..i - 1] + [s[i - 1]];
      ReduceBehind(s[..i - 1], s[i - 1], left, right);
      if !(s[i - 1] == left && depth == 1) {
        ScanLeftDepth(s, i - 1, left, right, if s[i - 1] == right then depth + 1 else if s[i - 1] == left then depth - 1 else depth, d);
      }
    }
  }

  /** Two texts one after the other. */
  function Join(a: Unmatched, b: Unmatched): Unmatched {
    if a.opening >= b.closing then Unmatched(a.closing, a.opening - b.closing + b.opening)
    else Unmatched(a.closing + b.closing - a.opening, b.opening)
  }

  lemma {:induction false} ReduceConcat(a: string, b: string, left: char, right: char)
    requires left != right
    ensures Reduce(a + b, left, right) == Join(Reduce(a, left, right), Reduce(b, left, right))
  {
    if a == "" {
      assert a + b == b;
    } else {
      assert (a + b)[0] == a[0] && (a + b)[1..] == a[1..] + b;
      ReduceConcat(a[1..], b, left, right);
    }
  }

  predicate IsPlace(doc: Doc, p: Place) {
    p.line < |doc| && p.col < |doc[p.line]|
  }

  /** The bracket that MatchRight finds is the one behind a text that leads to depth 1. */
  lemma {:induction false} MatchRightIs(doc: Doc, line: nat, i: nat, left: char, right: char, depth: nat, q: Place)
    requires line < |doc| && i <= |doc[line]| && depth > 0 && left != right
    requires IsPlace(doc, q) && (line < q.line || (line == q.line && i <= q.col))
    ensures MatchRight(doc, line, i, left, right, depth) == Some(q) <==>
      doc[q.line][q.col] == right && Level(Reduce(Span(doc, line, i, q.line, q.col), left, right), depth) == Some(1)
    decreases |doc| - line
  {
    hide ScanRight, Reduce;
    if line == q.line {
      ScanRightIs(doc[line], i, left, right, depth, q.col);
    } else {
      var u := Level(Reduce(doc[line][i..], left, right), depth);
      ReduceConcat(doc[line][i..], Span(doc, line + 1, 0, q.line, q.col), left, right);
      var scan := ScanRight(doc[line], i, left, right, depth);
      ScanRightDepth(doc[line], i, left, right, depth, if scan.Depth? then scan.depth else 1);
      if u.Some? {
        ScanRightDepth(doc[line], i, left, right, depth, u.value);
        MatchRightIs(doc, line + 1, 0, left, right, u.value, q);
      }
    }
  }

  lemma {:induction false} MatchLeftIs(doc: Doc, line: nat, i: nat, left: char, right: char, depth: nat, p: Place)
    requires line < |doc| && i <= |doc[line]| && depth > 0 && left != right
    requires IsPlace(doc, p) && (p.line < line || (p.line == line && p.col < i))
    ensures MatchLeft(doc, line, i, left, right, depth) == Some(p) <==>
      doc[p.line][p.col] == left && LevelLeft(Reduce(Span(doc, p.line, p.col + 1, line, i), left, right), depth) == Some(1)
    decreases line
  {
    hide ScanLeft, Reduce;
    if line == p.line {
      ScanLeftIs(doc[line], i, left, right, depth, p.col);
    } else {
      var u := LevelLeft(Reduce(doc[line][..i], left, right), depth);
      SpanBack(doc, p.line, p.col + 1, line, i);
      ReduceConcat(Span(doc, p.line, p.col + 1, line - 1, |doc[line - 1]|), doc[line][..i], left, right);
      var scan := ScanLeft(doc[line], i, left, right, depth);
      ScanLeftDepth(doc[line], i, left, right, depth, if scan.Depth? then scan.depth else 1);
      if u.Some? {
        ScanLeftDepth(doc[line], i, left, right, depth, u.value);
        MatchLeftIs(doc, line - 1, |doc[line - 1]|, left, right, u.value, p);
      }
    }
  }

  predicate IsBefore(p: Place, q: Place) {
    p.line < q.line || (p.line == q.line && p.col < q.col)
  }

  /** An opening and a later closing bracket with nothing but pairs of brackets between them. */
  predicate Pairs(doc: Doc, p: Place, q: Place, left: char, right: char) {
    && IsPlace(doc, p) && IsPlace(doc, q) && IsBefore(p, q)
    && doc[p.line][p.col] == left && doc[q.line][q.col] == right
    && Reduce(Span(doc, p.line, p.col + 1, q.line, q.col), left, right) == Unmatched(0, 0)
  }

  /** sci_find_matching_brace finds the pair, from either side. */
  lemma FindMatchingIs(doc: Doc, p: Place, q: Place, left: char, right: char)
    requires IsPlace(doc, p) && IsPlace(doc, q) && left != right
    ensures doc[p.line][p.col] == left ==> (FindMatching(doc, p, left, right) == Some(q) <==> Pairs(doc, p, q, left, right))
    ensures doc[q.line][q.col] == right ==> (FindMatching(doc, q, left, right) == Some(p) <==> Pairs(doc, p, q, left, right))
  {
    hide MatchRight, MatchLeft, Reduce, Span;
    if IsBefore(p, q) {
      MatchRightIs(doc, p.line, p.col + 1, left, right, 1, q);
      MatchLeftIs(doc, q.line, q.col, left, right, 1, p);
    }
  }

  /** From the bracket that was found, the first one is found again. */
  lemma FindMatchingBack(doc: Doc, at: Place, left: char, right: char)
    requires IsPlace(doc, at) && left != right && (doc[at.line][at.col] == left || doc[at.line][at.col] == right)
    ensures var r := FindMatching(doc, at, left, right); r.Some? ==> FindMatching(doc, r.value, left, right) == Some(at)
  {
    hide MatchRight, MatchLeft, Pairs;
    var r := FindMatching(doc, at, left, right);
    if r.Some? {
      FindMatchingIs(doc, at, r.value, left, right);
      FindMatchingIs(doc, r.value, at, left, right);
    }
  }
}
