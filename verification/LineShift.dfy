/**
 What an edit of a document does to the lines of its breakpoints, and the two orders in
 which the breakpoints can be moved one by one.
 */
module LineShift {
  import opened Common
  import opened BreakModel

  /** The edit at line `at` removed line `l`. */
  predicate Removed(at: int, d: int, l: int) {
    d < 0 && at <= l < at - d
  }

  /** Where an edit at line `at` that adds `d` lines takes line `l`. */
  function Shifted(at: int, d: int, l: int): int {
    if l < at then l else l + d
  }

  /** The only line that can have come to `l`. */
  function Unshifted(at: int, d: int, l: int): int {
    if l < at then l else l - d
  }

  /** Line `l'` holds a breakpoint that the edit took there. */
  predicate ComesFrom(t: LineTree, at: int, d: int, l': int) {
    var l := Unshifted(at, d, l');
    l in t && !Removed(at, d, l) && Shifted(at, d, l) == l'
  }

  /** The breakpoint of line `l` is where the edit takes it. */
  predicate GoesTo(t: LineTree, t': LineTree, at: int, d: int, l: int)
    requires l in t
  {
    var l' := Shifted(at, d, l);
    l' in t' && t'[l'] == t[l].(line := l')
  }

  /**
   `t'` is `t` after the edit: breakpoints above the edit are untouched, those on removed
   lines are gone, all others moved by `d`, and there are no other breakpoints.
   */
  ghost predicate IsShift(t: LineTree, t': LineTree, at: int, d: int) {
    && (forall l | l in t && !Removed(at, d, l) :: GoesTo(t, t', at, d, l))
    && (forall l' | l' in t' :: ComesFrom(t, at, d, l'))
  }

  /** No two breakpoints at or below the edit are exactly `d` lines apart. */
  ghost predicate NoClash(t: LineTree, at: int, d: int) {
    forall l | l in t && l >= at :: l + d !in t
  }

  /** One step of the loop: the breakpoint on line `l` is left, moved or removed. */
  function ShiftOne(t: LineTree, at: int, d: int, l: int): LineTree
    requires l in t
  {
    if l < at then t
    else if Removed(at, d, l) then t - {l}
    else (t - {l})[l + d := t[l].(line := l + d)]
  }

  /** The breakpoints on `done` lines are where they belong, the others still on their own lines. */
  ghost predicate Progress(t: LineTree, t': LineTree, at: int, d: int, done: set<int>) {
    && (forall l | l in t && l !in done :: l in t' && t'[l] == t[l])
    && (forall l | l in t && l in done && !Removed(at, d, l) :: GoesTo(t, t', at, d, l))
    && (forall l' | l' in t' :: (l' in t && l' !in done) || (ComesFrom(t, at, d, l') && Unshifted(at, d, l') in done))
  }

  /** The step at `b` moves to a free line and takes no moved breakpoint away. */
  ghost predicate Safe(t: LineTree, at: int, d: int, done: set<int>, b: int) {
    && (forall l | l in t && l in done && !Removed(at, d, l) :: Shifted(at, d, l) != b)
    && (b >= at && !Removed(at, d, b) ==> b + d !in t || b + d in done)
  }

  lemma ProgressStep(t: LineTree, t': LineTree, at: int, d: int, done: set<int>, b: int)
    requires forall l | l in t :: t[l].line == l
    requires Progress(t, t', at, d, done) && b in t && b !in done && Safe(t, at, d, done, b)
    ensures b in t' && t'[b] == t[b]
    ensures Progress(t, ShiftOne(t', at, d, b), at, d, done + {b})
    ensures b >= at && !Removed(at, d, b) ==> b + d !in t'
  {
    var t'', done' := ShiftOne(t', at, d, b), done + {b};
    if b >= at && !Removed(at, d, b) {
      assert b + d in t' ==> Unshifted(at, d, b + d) == b;
    }
    forall l | l in t && l in done' && !Removed(at, d, l)
      ensures GoesTo(t, t'', at, d, l)
    {
      if l != b { assert GoesTo(t, t', at, d, l); }
    }
    forall l' | l' in t''
      ensures (l' in t && l' !in done') || (ComesFrom(t, at, d, l') && Unshifted(at, d, l') in done')
    {
      if l' !in t' { assert l' == b + d; }
    }
  }

  lemma ProgressStart(t: LineTree, at: int, d: int)
    ensures Progress(t, t, at, d, {})
  {
  }

  lemma ProgressEnd(t: LineTree, t': LineTree, at: int, d: int, done: set<int>)
    requires Progress(t, t', at, d, done) && forall l | l in t :: l in done
    ensures IsShift(t, t', at, d)
  {
  }

  /** The step at a breakpoint of line `l` would move it onto another one. */
  predicate Clash(t: LineTree, at: int, d: int, l: int) {
    l >= at && !Removed(at, d, l) && l + d in t
  }

  /** No visited breakpoint was moved onto another one. */
  ghost predicate NoClashYet(t: LineTree, at: int, d: int, done: set<int>) {
    d > 0 ==> forall l | l in done && l >= at :: l + d !in t
  }

  /**
   The source visits the breakpoints in ascending order.  A step then hits another
   breakpoint exactly when lines are added and that breakpoint is `d` lines below.
   */
  lemma AscendingStep(t: LineTree, t': LineTree, at: int, d: int, done: set<int>, b: int)
    requires forall l | l in t :: t[l].line == l
    requires Progress(t, t', at, d, done) && NoClashYet(t, at, d, done)
    requires b in t && d != 0 && forall l | l in t :: l in done <==> l < b
    requires forall l | l in done :: l in t
    ensures b in t' && t'[b] == t[b]
    ensures Clash(t', at, d, b) <==> d > 0 && b >= at && b + d in t
    ensures !Clash(t', at, d, b) ==> Progress(t, ShiftOne(t', at, d, b), at, d, done + {b}) && NoClashYet(t, at, d, done + {b})
  {
    if d < 0 || b < at || b + d !in t {
      assert Safe(t, at, d, done, b);
      ProgressStep(t, t', at, d, done, b);
    }
  }

  /** The visited lines are the first `i` of the ascending `lines` of `t`. */
  ghost predicate Ascent(t: LineTree, lines: seq<int>, i: nat, done: set<int>) {
    && i <= |lines|
    && (forall j, k | 0 <= j < k < |lines| :: lines[j] < lines[k])
    && (forall l :: l in t <==> l in lines)
    && (forall l :: l in done <==> l in lines[..i])
  }

  lemma AscentStep(t: LineTree, lines: seq<int>, i: nat, done: set<int>)
    requires Ascent(t, lines, i, done) && i < |lines|
    ensures lines[i] in t && (forall l | l in t :: l in done <==> l < lines[i]) && (forall l | l in done :: l in t)
    ensures Ascent(t, lines, i + 1, done + {lines[i]})
  {
    assert lines[..i + 1] == lines[..i] + [lines[i]];
    assert lines[i] in lines;
    forall l | l in t
      ensures l in done <==> l < lines[i]
    {
      var k :| 0 <= k < |lines| && lines[k] == l;
      if k < i { assert lines[..i][k] == l; }
      if l in lines[..i] {
        var j :| 0 <= j < i && lines[j] == l;
      }
    }
    assert forall l | l in lines[..i] :: l in lines;
  }

  lemma AscentEnd(t: LineTree, t': LineTree, at: int, d: int, lines: seq<int>, done: set<int>)
    requires Ascent(t, lines, |lines|, done) && Progress(t, t', at, d, done) && NoClashYet(t, at, d, done)
    ensures IsShift(t, t', at, d) && (d < 0 || NoClash(t, at, d) || d == 0)
  {
    hide IsShift, Progress, NoClash, NoClashYet;
    assert lines[..|lines|] == lines;
    ProgressEnd(t, t', at, d, done);
    AllApart(t, at, d, done);
  }

  lemma AllApart(t: LineTree, at: int, d: int, done: set<int>)
    requires NoClashYet(t, at, d, done) && forall l | l in t :: l in done
    ensures d <= 0 || NoClash(t, at, d)
  {
  }

  /** In descending order adding lines is always safe. */
  lemma DescendingSafe(t: LineTree, at: int, d: int, done: set<int>, b: int)
    requires b in t && d > 0 && forall l | l in t :: l in done <==> l > b
    ensures Safe(t, at, d, done, b)
  {
  }

  /** The breakpoints of `lines`, last line first, moved one by one. */
  function ShiftDescending(t: LineTree, at: int, d: int, lines: seq<int>): LineTree
    decreases |lines|
  {
    if lines == [] then t
    else
      var l := lines[|lines| - 1];
      ShiftDescending(if l in t then ShiftOne(t, at, d, l) else t, at, d, lines[..|lines| - 1])
  }

  /** The lines of `t` are the ascending `lines`, still to be visited, and the greater `done` ones. */
  ghost predicate Sweep(t: LineTree, lines: seq<int>, done: set<int>) {
    && (forall i, j | 0 <= i < j < |lines| :: lines[i] < lines[j])
    && (forall l :: l in t <==> l in lines || l in done)
    && (forall l, x | l in done && x in lines :: x < l)
  }

  lemma SweepStep(t: LineTree, lines: seq<int>, done: set<int>)
    requires Sweep(t, lines, done) && lines != []
    ensures var n := |lines| - 1;
      && lines[n] in t && lines[n] !in done && (forall l | l in t :: l in done <==> l > lines[n])
      && Sweep(t, lines[..n], done + {lines[n]})
  {
    var n := |lines| - 1;
    assert lines == lines[..n] + [lines[n]];
    assert lines[n] in lines;
  }

  lemma {:induction false} DescendingProgress(t: LineTree, t': LineTree, at: int, d: int, lines: seq<int>, done: set<int>)
    requires d > 0
    requires forall l | l in t :: t[l].line == l
    requires Sweep(t, lines, done) && Progress(t, t', at, d, done)
    ensures IsShift(t, ShiftDescending(t', at, d, lines), at, d)
    decreases |lines|
  {
    if lines == [] {
      ProgressEnd(t, t', at, d, done);
    } else {
      hide IsShift, Progress, Sweep;
      var n := |lines| - 1;
      SweepStep(t, lines, done);
      DescendingSafe(t, at, d, done, lines[n]);
      ProgressStep(t, t', at, d, done, lines[n]);
      DescendingProgress(t, ShiftOne(t', at, d, lines[n]), at, d, lines[..n], done + {lines[n]});
    }
  }

  /**
   Had the loop visited the breakpoints in descending order, an edit that adds lines would
   always be exact.
   */
  lemma DescendingIsExact(t: LineTree, at: int, d: int, lines: seq<int>)
    requires d > 0
    requires forall l | l in t :: t[l].line == l
    requires forall i, j | 0 <= i < j < |lines| :: lines[i] < lines[j]
    requires forall l :: l in lines <==> l in t
    ensures IsShift(t, ShiftDescending(t, at, d, lines), at, d)
  {
    ProgressStart(t, at, d);
    DescendingProgress(t, t, at, d, lines, {});
  }

  // ----- Counting

  lemma {:induction false} ImageSize(s: set<int>, at: int, d: int)
    requires d >= 0
    ensures |set l | l in s :: Shifted(at, d, l)| == |s|
  {
    var image := set l | l in s :: Shifted(at, d, l);
    if s == {} {
      assert image == {};
    } else {
      var x := Member(s);
      var rest := set l | l in s - {x} :: Shifted(at, d, l);
      ImageSize(s - {x}, at, d);
      assert image == rest + {Shifted(at, d, x)};
      assert Shifted(at, d, x) !in rest;
    }
  }

  /** An exact shift that adds lines loses no breakpoint. */
  lemma ShiftKeepsSize(t: LineTree, t': LineTree, at: int, d: int)
    requires IsShift(t, t', at, d) && d > 0
    ensures |t'| == |t|
  {
    ImageSize(t.Keys, at, d);
    var image := set l | l in t.Keys :: Shifted(at, d, l);
    forall l' | l' in image
      ensures l' in t'
    {
      var l :| l in t.Keys && l' == Shifted(at, d, l);
      assert GoesTo(t, t', at, d, l);
    }
    forall l' | l' in t'
      ensures l' in image
    {
      assert ComesFrom(t, at, d, l');
    }
    assert t'.Keys == image;
  }

  /** A step that hits another breakpoint loses it; no step adds one. */
  lemma MoveSize(t: LineTree, l: int, l': int, b: Break)
    requires l in t
    ensures var t' := (t - {l})[l' := b]; |t'| == if l' != l && l' in t then |t| - 1 else |t|
  {
    var t' := (t - {l})[l' := b];
    assert t'.Keys == t.Keys - {l} + {l'};
  }

  // ----- The order of the child rows

  /** The line that each row number had before the edit. */
  ghost predicate OriginOf(t: LineTree, origin: map<nat, int>) {
    forall l | l in t :: t[l].iter.kid in origin && origin[t[l].iter.kid] == l
  }

  /** The rows are still in the order of their original lines. */
  ghost predicate OrderedBy(kids: seq<KidRow>, origin: map<nat, int>) {
    && (forall i | 0 <= i < |kids| :: kids[i].id in origin)
    && (forall i, j | 0 <= i < j < |kids| :: origin[kids[i].id] < origin[kids[j].id])
  }

  /** Rows that show an exact shift in the original order are in ascending order. */
  lemma ShiftAscending(t: LineTree, t': LineTree, at: int, d: int, kids: seq<KidRow>, r: nat, origin: map<nat, int>)
    requires IsShift(t, t', at, d) && OriginOf(t, origin)
    requires AllShow(kids, t', r) && OrderedBy(kids, origin)
    ensures Ascending(kids)
  {
    forall i | 0 <= i < |kids|
      ensures kids[i].line == Shifted(at, d, origin[kids[i].id])
      ensures !Removed(at, d, origin[kids[i].id])
    {
      assert Shows(kids[i], t', r) && ComesFrom(t, at, d, kids[i].line);
      var l := Unshifted(at, d, kids[i].line);
      assert GoesTo(t, t', at, d, l);
    }
  }
}
