/**
 Enclosing several selections at once, autoclose.c.
 */
module AutocloseSelections {
  import AutocloseJump


  datatype Selection = Selection(anchor: nat, caret: nat)

  /** A piece of the text from `start` to `end`, without `end`. */
  datatype Segment = Segment(start: nat, end: nat)

  function SegmentOf(s: Selection): Segment {
    if s.caret < s.anchor then Segment(s.caret, s.anchor) else Segment(s.anchor, s.caret)
  }

  /** The selected segments from the start of the text on, for selections made downwards or upwards. */
  function Segments(sels: seq<Selection>, down: bool): (segs: seq<Segment>)
    ensures |segs| == |sels|
    ensures forall k | 0 <= k < |sels| :: segs[k] == SegmentOf(sels[if down then k else |sels| - 1 - k])
  {
    seq(|sels|, k requires 0 <= k < |sels| => SegmentOf(sels[if down then k else |sels| - 1 - k]))
  }

  /** The same segments from the end of the text on. */
  function Backwards(sels: seq<Selection>, down: bool): (segs: seq<Segment>)
    ensures |segs| == |sels|
  {
    seq(|sels|, i requires 0 <= i < |sels| => SegmentOf(sels[if down then |sels| - i - 1 else i]))
  }

  lemma BackwardsAt(sels: seq<Selection>, down: bool, i: nat)
    requires i < |sels|
    ensures Backwards(sels, down)[i] == SegmentOf(sels[if down then |sels| - i - 1 else i])
  {
  }

  ghost predicate Reverses(a: seq<Segment>, b: seq<Segment>) {
    |a| == |b| && forall i | 0 <= i < |a| :: a[i] == b[|b| - 1 - i]
  }

  lemma BackwardsReverses(sels: seq<Selection>, down: bool)
    ensures Reverses(Backwards(sels, down), Segments(sels, down))
  {
    hide Backwards, SegmentOf;
    forall i | 0 <= i < |sels|
      ensures Backwards(sels, down)[i] == Segments(sels, down)[|sels| - 1 - i]
    {
      BackwardsAt(sels, down, i);
    }
  }

  lemma ReversesAt(a: seq<Segment>, b: seq<Segment>, i: nat)
    requires Reverses(a, b) && i < |a|
    ensures a[i] == b[|b| - 1 - i]
  {
  }

  /** Segments of a text, in order and disjoint. */
  ghost predicate InOrder(segs: seq<Segment>, length: nat) {
    && (forall k | 0 <= k < |segs| :: segs[k].start <= segs[k].end <= length)
    && (forall j, k | 0 <= j < k < |segs| :: segs[j].end <= segs[k].start)
  }

  /** The places around the segments, in the text and one after it for the bracket inserted before. */
  ghost predicate AreBounds(starts: seq<int>, ends: seq<int>, segs: seq<Segment>) {
    && |starts| == |ends| == |segs|
    && forall i | 0 <= i < |segs| :: starts[i] == segs[i].start && ends[i] == segs[i].end + 1
  }

  lemma SetBounds(starts: seq<int>, ends: seq<int>, segs: seq<Segment>, i: nat, s: Segment)
    requires i < |segs| && AreBounds(starts, ends, segs)
    ensures AreBounds(starts[i := s.start], ends[i := s.end + 1], segs[i := s])
  {
  }

  lemma NoBounds()
    ensures AreBounds([], [], [])
  {
  }

  lemma MoreBounds(starts: seq<int>, ends: seq<int>, segs: seq<Segment>, s: Segment)
    requires AreBounds(starts, ends, segs)
    ensures AreBounds(starts + [s.start], ends + [s.end + 1], segs + [s])
  {
  }

  /** All carets are on the same side of their anchors. */
  predicate SameSide(sels: seq<Selection>, caretIsLeft: bool) {
    forall k | 0 <= k < |sels| :: if caretIsLeft then sels[k].caret <= sels[k].anchor else sels[k].anchor <= sels[k].caret
  }

  /** What follows the `k`-th segment's start, with all segments from it on enclosed. */
  function Rest(text: string, segs: seq<Segment>, k: nat, left: char, right: char): string
    requires k <= |segs| && InOrder(segs, |text|)
    decreases |segs| - k
  {
    if k == |segs| then ""
    else
      var next := if k + 1 < |segs| then segs[k + 1].start else |text|;
      [left] + text[segs[k].start..segs[k].end] + [right] + text[segs[k].end..next] + Rest(text, segs, k + 1, left, right)
  }

  /** The text with every segment enclosed. */
  function Enclosed(text: string, segs: seq<Segment>, left: char, right: char): string
    requires InOrder(segs, |text|)
  {
    if segs == [] then text else text[..segs[0].start] + Rest(text, segs, 0, left, right)
  }

  /** What one segment adds to the text, up to the start of the next one. */
  function Piece(text: string, segs: seq<Segment>, k: nat, left: char, right: char): (piece: string)
    requires k + 1 < |segs| && InOrder(segs, |text|)
    ensures |piece| == segs[k + 1].start - segs[k].start + 2
  {
    [left] + text[segs[k].start..segs[k].end] + [right] + text[segs[k].end..segs[k + 1].start]
  }

  lemma RestIsPiece(text: string, segs: seq<Segment>, k: nat, left: char, right: char)
    requires k + 1 < |segs| && InOrder(segs, |text|)
    ensures Rest(text, segs, k, left, right) == Piece(text, segs, k, left, right) + Rest(text, segs, k + 1, left, right)
  {
  }

  lemma Assoc(a: string, b: string, c: string)
    ensures a + (b + c) == (a + b) + c
  {
  }

  /** The part before the `k`-th segment is as much longer as there are brackets in it. */
  lemma {:induction false} EnclosedAt(text: string, segs: seq<Segment>, k: nat, left: char, right: char) returns (before: string)
    requires k < |segs| && InOrder(segs, |text|)
    ensures Enclosed(text, segs, left, right) == before + Rest(text, segs, k, left, right)
    ensures |before| == segs[k].start + 2 * k
  {
    hide Rest, Piece;
    if k == 0 {
      before := text[..segs[0].start];
    } else {
      var b := EnclosedAt(text, segs, k - 1, left, right);
      var piece := Piece(text, segs, k - 1, left, right);
      RestIsPiece(text, segs, k - 1, left, right);
      Assoc(b, piece, Rest(text, segs, k, left, right));
      before := b + piece;
    }
  }

  /** Each segment is found, between its brackets, two characters further for every segment before it and one for its own. */
  lemma SegmentsKept(text: string, segs: seq<Segment>, k: nat, left: char, right: char)
    requires k < |segs| && InOrder(segs, |text|)
    ensures var t, start, end := Enclosed(text, segs, left, right), Moved(segs, k).start, Moved(segs, k).end;
      end < |t| && t[start..end] == text[segs[k].start..segs[k].end] && t[start - 1] == left && t[end] == right
  {
    hide Enclosed;
    var t, start, end := Enclosed(text, segs, left, right), segs[k].start + 2 * k + 1, segs[k].end + 2 * k + 1;
    var before := EnclosedAt(text, segs, k, left, right);
    var rest := Rest(text, segs, k, left, right);
    var segment := text[segs[k].start..segs[k].end];
    assert rest[1..1 + |segment|] == segment && rest[0] == left && rest[1 + |segment|] == right;
    assert t[start..end] == rest[1..1 + |segment|];
  }

  /** The text before, between and after the segments is found unchanged between their brackets. */
  lemma GapsKept(text: string, segs: seq<Segment>, k: nat, left: char, right: char)
    requires k < |segs| && InOrder(segs, |text|)
    ensures var t, end := Enclosed(text, segs, left, right), Moved(segs, k).end + 1;
      && segs[0].start <= |t| && t[..segs[0].start] == text[..segs[0].start]
      && (k + 1 < |segs| ==>
            end <= Moved(segs, k + 1).start - 1 <= |t| &&
            t[end..Moved(segs, k + 1).start - 1] == text[segs[k].end..segs[k + 1].start])
      && (k + 1 == |segs| ==> end <= |t| && t[end..] == text[segs[k].end..])
  {
    hide Enclosed, Rest, Piece;
    var t := Enclosed(text, segs, left, right);
    FirstKept(text, segs, left, right);
    var before := EnclosedAt(text, segs, k, left, right);
    var n := segs[k].end - segs[k].start + 2;
    var end := |before| + n;
    if k + 1 < |segs| {
      var piece := Piece(text, segs, k, left, right);
      RestIsPiece(text, segs, k, left, right);
      PieceEnds(text, segs, k, left, right);
      Within(before, piece, Rest(text, segs, k + 1, left, right), n);
    } else {
      LastEnds(text, segs, left, right);
      assert t[end..] == Rest(text, segs, k, left, right)[n..];
    }
  }

  lemma FirstKept(text: string, segs: seq<Segment>, left: char, right: char)
    requires segs != [] && InOrder(segs, |text|)
    ensures var t := Enclosed(text, segs, left, right);
      segs[0].start <= |t| && t[..segs[0].start] == text[..segs[0].start]
  {
  }

  lemma PieceEnds(text: string, segs: seq<Segment>, k: nat, left: char, right: char)
    requires k + 1 < |segs| && InOrder(segs, |text|)
    ensures Piece(text, segs, k, left, right)[segs[k].end - segs[k].start + 2..] == text[segs[k].end..segs[k + 1].start]
  {
    EndOf([left] + text[segs[k].start..segs[k].end] + [right], text[segs[k].end..segs[k + 1].start]);
  }

  lemma LastEnds(text: string, segs: seq<Segment>, left: char, right: char)
    requires segs != [] && InOrder(segs, |text|)
    ensures var k := |segs| - 1; var rest, n := Rest(text, segs, k, left, right), segs[k].end - segs[k].start + 2;
      n <= |rest| && rest[n..] == text[segs[k].end..]
  {
    var k := |segs| - 1;
    var front, gap := [left] + text[segs[k].start..segs[k].end] + [right], text[segs[k].end..];
    EndOf(front, gap);
    assert Rest(text, segs, k, left, right) == front + text[segs[k].end..|text|] + "";
    hide Rest;
    assert text[segs[k].end..|text|] == gap && front + gap + "" == front + gap;
  }

  lemma EndOf(a: string, b: string)
    ensures (a + b)[|a|..] == b
  {
  }

  lemma Within(a: string, b: string, c: string, n: nat)
    requires n <= |b|
    ensures (a + (b + c))[|a| + n..|a| + |b|] == b[n..]
  {
  }

  class Editor {
    var text: string
    var selections: seq<Selection>
    /** jump_on_tab, and where and on which line the caret was left. */
    var jump: int
    var lastCaret: int
    var lastLine: int

    constructor (text: string, selections: seq<Selection>)
      ensures this.text == text && this.selections == selections && jump == 0
    {
      this.text, this.selections := text, selections;
      jump, lastCaret, lastLine := 0, 0, 0;
    }

    method InsertText(pos: nat, c: char)
      requires pos <= |text|
      modifies `text
      ensures text == old(text)[..pos] + [c] + old(text)[pos..]
    {
      text := text[..pos] + [c] + text[pos..];
    }

    /** The first loop: the selections' bounds, the last one in the text first. */
    method CollectBounds(caretIsLeft: bool, down: bool, selsLeft: array<int>, selsRight: array<int>)
      requires selsLeft.Length == selsRight.Length == |selections| && selsLeft != selsRight
      requires SameSide(selections, caretIsLeft)
      modifies selsLeft, selsRight
      ensures AreBounds(selsLeft[..], selsRight[..], Backwards(selections, down))
    {
      hide SameSide, SegmentOf, AreBounds, Backwards;
      ghost var segs := Backwards(selections, down);
      NoBounds();
      assert selsLeft[..0] == [] && selsRight[..0] == [] && segs[..0] == [];
      var i := 0;
      while i < |selections|
        invariant 0 <= i <= |selections|
        invariant AreBounds(selsLeft[..i], selsRight[..i], segs[..i])
      {
        var line := if down then |selections| - i - 1 else i;
        SideOf(selections, caretIsLeft, line);
        BackwardsAt(selections, down, i);
        var bounds := if caretIsLeft then (selections[line].caret, selections[line].anchor + 1)
                      else (selections[line].anchor, selections[line].caret + 1);
        AppendBounds(selsLeft, selsRight, i, bounds, segs[..i], segs[i]);
        i := i + 1;
        assert segs[..i] == segs[..i - 1] + [segs[i - 1]];
      }
      assert segs[..i] == segs && selsLeft[..i] == selsLeft[..] && selsRight[..i] == selsRight[..];
    }

    static method AppendBounds(selsLeft: array<int>, selsRight: array<int>, i: nat, bounds: (int, int),
                               ghost segs: seq<Segment>, ghost s: Segment)
      requires i < selsLeft.Length == selsRight.Length && selsLeft != selsRight
      requires AreBounds(selsLeft[..i], selsRight[..i], segs) && bounds == (s.start, s.end + 1)
      modifies selsLeft, selsRight
      ensures AreBounds(selsLeft[..i + 1], selsRight[..i + 1], segs + [s])
    {
      hide AreBounds;
      MoreBounds(selsLeft[..i], selsRight[..i], segs, s);
      ghost var starts, ends := selsLeft[..i], selsRight[..i];
      selsLeft[i] := bounds.0;
      selsRight[i] := bounds.1;
      assert selsLeft[..i + 1] == starts + [bounds.0] && selsRight[..i + 1] == ends + [bounds.1];
    }

    /** One round of the second loop, for the `k`-th segment of the original text. */
    method EncloseOne(start: nat, after: nat, left: char, right: char, ghost was: string, ghost segs: seq<Segment>, ghost k: nat)
      requires k < |segs| && InOrder(segs, |was|) && start == segs[k].start && after == segs[k].end + 1
      requires text == FromSegment(was, segs, k + 1, left, right)
      modifies `text
      ensures text == FromSegment(was, segs, k, left, right)
    {
      hide FromSegment, Rest;
      ghost var next := if k + 1 < |segs| then segs[k + 1].start else |was|;
      ghost var tail := was[after - 1..next] + Rest(was, segs, k + 1, left, right);
      SplitHere(was, segs, k, left, right);
      InsertTwice(was[..start], was[start..after - 1], tail, left, right);
      InsertText(start, left);
      InsertText(after, right);
    }

    /** The second loop: inserts around the segments and moves the bounds to where the segments will be. */
    method InsertAll(selsLeft: array<int>, selsRight: array<int>, left: char, right: char,
                     ghost segs: seq<Segment>, ghost back: seq<Segment>) returns (ghost moved: seq<Segment>)
      requires selsLeft.Length == selsRight.Length == |segs| && selsLeft != selsRight
      requires InOrder(segs, |text|) && |back| == |segs| && Reverses(back, segs)
      requires AreBounds(selsLeft[..], selsRight[..], back)
      modifies `text, selsLeft, selsRight
      ensures text == Enclosed(old(text), segs, left, right)
      ensures |moved| == |segs| && forall i | 0 <= i < |segs| :: moved[i] == Moved(segs, |segs| - 1 - i)
      ensures AreBounds(selsLeft[..], selsRight[..], moved)
    {
      hide Rest, FromSegment, Moved, InOrder, Reverses, AreBounds;
      ghost var was := text;
      var n := selsLeft.Length;
      moved := seq(n, i requires 0 <= i < n => Moved(segs, n - 1 - i));
      NoneYet(was, segs, left, right);
      assert moved[..0] + back[0..] == back;
      var i := 0;
      while i < n
        invariant 0 <= i <= n
        invariant text == FromSegment(was, segs, n - i, left, right)
        invariant AreBounds(selsLeft[..], selsRight[..], moved[..i] + back[i..])
      {
        ReversesAt(back, segs, i);
        BoundsAt(selsLeft, selsRight, moved[..i] + back[i..], i);
        EncloseOne(selsLeft[i], selsRight[i], left, right, was, segs, n - 1 - i);
        MovedIs(segs, n - 1 - i);
        assert moved[i] == Moved(segs, n - 1 - i);
        MoveBounds(selsLeft, selsRight, i, (n - i - 1) * 2 + 1, moved[..i] + back[i..], moved[i]);
        NextMoved(moved, back, i);
        i := i + 1;
      }
      assert moved[..n] + back[n..] == moved;
      AllDone(was, segs, left, right);
    }

    /** The bounds of one segment. */
    static method MoveBounds(selsLeft: array<int>, selsRight: array<int>, i: nat, d: nat, ghost segs: seq<Segment>, ghost s: Segment)
      requires selsLeft != selsRight && AreBounds(selsLeft[..], selsRight[..], segs)
      requires i < |segs| && s == Segment(segs[i].start + d, segs[i].end + d)
      modifies selsLeft, selsRight
      ensures AreBounds(selsLeft[..], selsRight[..], segs[i := s])
    {
      SetBounds(selsLeft[..], selsRight[..], segs, i, s);
      ghost var starts, ends := selsLeft[..], selsRight[..];
      selsLeft[i] := selsLeft[i] + d;
      selsRight[i] := selsRight[i] + d;
      assert selsLeft[..] == starts[i := s.start] && selsRight[..] == ends[i := s.end + 1];
    }

    /** SCI_SETSELECTION and SCI_ADDSELECTION */
    method KeepSelections(selsLeft: array<int>, selsRight: array<int>, ghost segs: seq<Segment>)
      requires selsLeft.Length == selsRight.Length == |segs| > 0
      requires AreBounds(selsLeft[..], selsRight[..], segs) && forall i | 0 <= i < |segs| :: segs[i].start <= segs[i].end
      modifies `selections
      ensures |selections| == |segs| && forall i | 0 <= i < |segs| :: SegmentOf(selections[i]) == segs[i]
    {
      var i := 0;
      selections := [Selection(selsRight[i] - 1, selsLeft[i])];
      i := 1;
      while i < selsLeft.Length
        invariant 1 <= i <= selsLeft.Length && |selections| == i
        invariant forall j | 0 <= j < i :: SegmentOf(selections[j]) == segs[j]
      {
        selections := selections + [Selection(selsRight[i] - 1, selsLeft[i])];
        i := i + 1;
      }
    }

    /** The part of enclose_selection for a single selection; the caret goes before the inserted bracket. */
    method EncloseSelection(left: char, right: char, keepSelection: bool)
      requires |selections| == 1 && SegmentOf(selections[0]).end <= |text|
      modifies this
      ensures var segs := [SegmentOf(old(selections)[0])];
        && text == Enclosed(old(text), segs, left, right)
        && |selections| == 1
        && (if keepSelection then SegmentOf(selections[0]) == Moved(segs, 0)
            else selections[0] == Selection(Moved(segs, 0).end, Moved(segs, 0).end))
        && jump == old(jump) + 1 && lastCaret == Moved(segs, 0).end <= |text| && lastLine == AutocloseJump.LineAt(text, lastCaret)
    {
      var start, end := SegmentOf(selections[0]).start, SegmentOf(selections[0]).end;
      ghost var was, segs := text, [SegmentOf(selections[0])];
      NoneYet(was, segs, left, right);
      EncloseOne(start, end + 1, left, right, was, segs, 0);
      AllDone(was, segs, left, right);
      selections := [Selection(end + 1, end + 1)];
      jump := jump + 1;
      lastCaret := end + 1;
      lastLine := AutocloseJump.LineAt(text, end + 1);
      if keepSelection {
        selections := [Selection(start + 1, end + 1)];
      }
    }

    /**
     The part of enclose_selection for more than one selection.  When they are not kept, it is up
     to Scintilla where its insertions move them.
     */
    method EncloseSelections(left: char, right: char, keepSelection: bool)
      requires |selections| > 1
      requires var down := selections[0].caret < selections[1].caret;
        InOrder(Segments(selections, down), |text|) && SameSide(selections, selections[0].caret < selections[0].anchor)
      modifies this
      ensures var segs := Segments(old(selections), old(selections[0].caret < selections[1].caret));
        && text == Enclosed(old(text), segs, left, right)
        && (keepSelection ==>
              |selections| == |segs| && forall i | 0 <= i < |segs| :: SegmentOf(selections[i]) == Moved(segs, |segs| - 1 - i))
    {
      hide InOrder, SameSide, SegmentOf, Moved, Enclosed, Segments, Backwards, Reverses;
      var n := |selections|;
      var selsLeft, selsRight := new int[n], new int[n];
      var caretIsLeft := selections[0].caret < selections[0].anchor;
      var down := selections[0].caret < selections[1].caret;
      ghost var segs := Segments(selections, down);
      CollectBounds(caretIsLeft, down, selsLeft, selsRight);
      BackwardsReverses(selections, down);
      MovedInOrder(segs, |text|);
      ghost var moved := InsertAll(selsLeft, selsRight, left, right, segs, Backwards(selections, down));
      if keepSelection {
        KeepSelections(selsLeft, selsRight, moved);
      } else {
        selections := *;
      }
    }
  }

  lemma SideOf(sels: seq<Selection>, caretIsLeft: bool, line: nat)
    requires SameSide(sels, caretIsLeft) && line < |sels|
    ensures SegmentOf(sels[line]) ==
      if caretIsLeft then Segment(sels[line].caret, sels[line].anchor) else Segment(sels[line].anchor, sels[line].caret)
  {
  }

  /** Where the `k`-th segment is once all are enclosed. */
  function Moved(segs: seq<Segment>, k: nat): Segment
    requires k < |segs|
  {
    Segment(segs[k].start + 2 * k + 1, segs[k].end + 2 * k + 1)
  }

  lemma BoundsAt(selsLeft: array<int>, selsRight: array<int>, segs: seq<Segment>, i: nat)
    requires AreBounds(selsLeft[..], selsRight[..], segs) && i < |segs|
    ensures i < selsLeft.Length && i < selsRight.Length
    ensures selsLeft[i] == segs[i].start && selsRight[i] == segs[i].end + 1
  {
  }

  lemma NextMoved(moved: seq<Segment>, back: seq<Segment>, i: nat)
    requires |moved| == |back| && i < |moved|
    ensures (moved[..i] + back[i..])[i := moved[i]] == moved[..i + 1] + back[i + 1..]
  {
  }

  lemma MovedIs(segs: seq<Segment>, k: nat)
    requires k < |segs|
    ensures Moved(segs, k) == Segment(segs[k].start + 2 * k + 1, segs[k].end + 2 * k + 1)
  {
  }

  lemma MovedInOrder(segs: seq<Segment>, length: nat)
    requires InOrder(segs, length)
    ensures forall k | 0 <= k < |segs| :: Moved(segs, k).start <= Moved(segs, k).end
  {
  }

  /** The text with the segments from the `k`-th on enclosed. */
  function FromSegment(text: string, segs: seq<Segment>, k: nat, left: char, right: char): string
    requires k <= |segs| && InOrder(segs, |text|)
  {
    text[..if k < |segs| then segs[k].start else |text|] + Rest(text, segs, k, left, right)
  }

  lemma NoneYet(text: string, segs: seq<Segment>, left: char, right: char)
    requires InOrder(segs, |text|)
    ensures FromSegment(text, segs, |segs|, left, right) == text
  {
    assert text[..|text|] == text;
  }

  lemma AllDone(text: string, segs: seq<Segment>, left: char, right: char)
    requires InOrder(segs, |text|)
    ensures FromSegment(text, segs, 0, left, right) == Enclosed(text, segs, left, right)
  {
    assert text[..|text|] == text;
  }

  lemma SplitHere(text: string, segs: seq<Segment>, k: nat, left: char, right: char)
    requires k < |segs| && InOrder(segs, |text|)
    ensures var a, b := segs[k].start, segs[k].end;
      var next := if k + 1 < |segs| then segs[k + 1].start else |text|;
      var tail := text[b..next] + Rest(text, segs, k + 1, left, right);
      && FromSegment(text, segs, k + 1, left, right) == text[..a] + text[a..b] + tail
      && FromSegment(text, segs, k, left, right) == text[..a] + [left] + text[a..b] + [right] + tail
  {
    var a, b := segs[k].start, segs[k].end;
    var next := if k + 1 < |segs| then segs[k + 1].start else |text|;
    assert text[..next] == text[..a] + text[a..b] + text[b..next];
    var tail := Rest(text, segs, k + 1, left, right);
    assert Rest(text, segs, k, left, right) == [left] + text[a..b] + [right] + text[b..next] + tail;
    hide Rest, InOrder;
    Regroup(text[..a], text[a..b], text[b..next], tail, left, right);
  }

  lemma Regroup(a: string, b: string, c: string, d: string, left: char, right: char)
    ensures a + b + c + d == a + b + (c + d)
    ensures a + ([left] + b + [right] + c + d) == a + [left] + b + [right] + (c + d)
  {
  }

  lemma InsertTwice(a: string, b: string, c: string, left: char, right: char)
    ensures var t := a + b + c;
      var t1 := t[..|a|] + [left] + t[|a|..];
      var n := |a| + |b| + 1;
      t1[..n] + [right] + t1[n..] == a + [left] + b + [right] + c
  {
    var t := a + b + c;
    assert t[|a|..] == b + c;
    var t1 := t[..|a|] + [left] + t[|a|..];
    assert t1 == (a + [left] + b) + c;
  }
}
