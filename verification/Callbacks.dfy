/**
 Editor notifications that reach the breakpoints, callbacks.c.
 */
module Callbacks {
  import opened Common
  import opened BreakModel
  import opened BreakTree
  import opened BreakAgreement
  import opened BreakChecks
  import opened BreakStore
  import opened Breakpoints
  import opened LineShift
  import opened GdbMachine
  import opened GdbAgreement
  import opened DbmGdb

  /** A row number belongs to one original line, and the other files keep their rows; right checkboxes stay right. */
  ghost predicate ViewProgress(v: View, v': View, r: nat, origin: map<nat, int>) {
    && (Checked(v) ==> Checked(v'))
    && (forall q | q in v'.rows && q != r :: q in v.rows && v'.rows[q].kids == v.rows[q].kids)
    && (r in v'.rows ==> OrderedBy(v'.rows[r].kids, origin))
  }

  lemma UpdateProgress(v: View, v': View, r: nat, origin: map<nat, int>, b: Break)
    requires ViewProgress(v, v', r, origin) && b.iter.fileRow == r
    requires Checked(v') ==> Checked(UpdateView(v', b))
    ensures ViewProgress(v, UpdateView(v', b), r, origin)
  {
    hide Checked;
  }

  lemma RemoveProgress(v: View, v': View, r: nat, origin: map<nat, int>, b: Break)
    requires ViewProgress(v, v', r, origin) && b.iter.fileRow == r
    ensures ViewProgress(v, RemoveView(v', b), r, origin)
  {
    hide Checked;
    if Checked(v') { RemoveChecked(v', b); }
  }

  /** The row of the edited file is still the same one, if it is there. */
  lemma SameRow(s: Store, v: View, s': Store, v': View, file: string, at: int, d: int)
    requires Linked(s, v) && Linked(s', v') && file in v.files && file in s
    requires file in s' && s' == s[file := s'[file]] && IsShift(s[file], s'[file], at, d)
    ensures file in v'.files ==> v'.files[file] == v.files[file]
    ensures v.files[file] in v'.rows ==> v'.rows[v.files[file]].path == file
  {
    hide KidsLinked, OrderLinked;
    if file in v'.files {
      var l' := Member(s'[file].Keys);
      assert ComesFrom(s[file], at, d, l');
      assert GoesTo(s[file], s'[file], at, d, Unshifted(at, d, l'));
      var j := RowExists(s', v', file, l');
      var i := RowExists(s, v, file, Unshifted(at, d, l'));
    }
    if v.files[file] in v'.rows && v'.rows[v.files[file]].path != file {
      var p := v'.rows[v.files[file]].path;
      var l := Member(s[p].Keys);
      var i := RowExists(s, v, p, l);
      var j := RowExists(s', v', p, l);
    }
  }

  /** Rows in the original order that show an exact shift are sorted. */
  lemma ProgressSorted(s: Store, v: View, s': Store, v': View, file: string, origin: map<nat, int>, at: int, d: int)
    requires Agrees(s, v) && Linked(s', v') && file in v.files && file in s
    requires file in s' && s' == s[file := s'[file]] && IsShift(s[file], s'[file], at, d)
    requires ViewProgress(v, v', v.files[file], origin) && OriginOf(s[file], origin)
    ensures Agrees(s', v')
  {
    var r := v.files[file];
    SameRow(s, v, s', v', file, at, d);
    forall q | q in v'.rows
      ensures Ascending(v'.rows[q].kids)
    {
      if q == r {
        assert FileLinked(s', v', file);
        ShiftAscending(s[file], s'[file], at, d, v'.rows[r].kids, r, origin);
      } else {
        assert v'.rows[q].kids == v.rows[q].kids;
      }
    }
  }

  lemma OriginOfKids(kids: seq<KidRow>) returns (origin: map<nat, int>)
    requires DistinctIds(kids) && Ascending(kids)
    ensures forall j | 0 <= j < |kids| :: kids[j].id in origin && origin[kids[j].id] == kids[j].line
    ensures OrderedBy(kids, origin)
  {
    forall i, j | 0 <= i < |kids| && 0 <= j < |kids| && kids[i].id == kids[j].id
      ensures i == j
    {
    }
    origin := map j | 0 <= j < |kids| :: kids[j].id := kids[j].line;
  }

  /** The original line of each row of a file. */
  lemma OriginExists(s: Store, v: View, file: string) returns (origin: map<nat, int>)
    requires Agrees(s, v) && file in v.files
    ensures OriginOf(s[file], origin) && ViewProgress(v, v, v.files[file], origin)
  {
    hide OrderedBy, Ascending, OrderLinked;
    var kids := v.rows[v.files[file]].kids;
    assert FileLinked(s, v, file);
    origin := OriginOfKids(kids);
    forall l | l in s[file]
      ensures s[file][l].iter.kid in origin && origin[s[file][l].iter.kid] == l
    {
      var j := RowExists(s, v, file, l);
    }
  }

  lemma SizedShift(s: Store, s': Store, file: string, at: int, d: int)
    requires Sized(s) && file in s && file in s'
    requires s' == s[file := s'[file]] && IsShift(s[file], s'[file], at, d)
    ensures Sized(s')
  {
    forall f, l | Has(s', f, l)
      ensures |f| < FILENAME_MAX && |s'[f][l].condition| <= CONDITION_MAX_LENGTH
    {
      if f == file {
        assert ComesFrom(s[file], at, d, l) && GoesTo(s[file], s'[file], at, d, Unshifted(at, d, l));
        assert Has(s, f, Unshifted(at, d, l));
      } else {
        assert Has(s, f, l);
      }
    }
  }

  lemma MovedSizes(s: Store, f: string, l: int, b: Break)
    requires Has(s, f, l)
    ensures Moved(s, f, l, b).Keys == s.Keys
    ensures forall g | g in s :: |Moved(s, f, l, b)[g]| <= |s[g]|
    ensures b.line != l && b.line in s[f] ==> |Moved(s, f, l, b)[f]| == |s[f]| - 1
  {
    MoveSize(s[f], l, b.line, b);
  }

  lemma DelSizes(s: Store, f: string, l: int)
    requires Has(s, f, l)
    ensures Del(s, f, l).Keys == s.Keys
    ensures forall g | g in s :: |Del(s, f, l)[g]| <= |s[g]|
  {
    assert (s[f] - {l}).Keys == s[f].Keys - {l};
  }

  /** No file gains a breakpoint. */
  ghost predicate NoMore(s: Store, s': Store) {
    s'.Keys == s.Keys && forall g | g in s :: |s'[g]| <= |s[g]|
  }

  /** breaks_move_to_line followed by bptree_update_breakpoint; `moved` is the structure that was moved. */
  method MoveItem(b: Breakpoints, bp: Breakpoint, d: int) returns (ghost moved: Breakpoint?)
    requires b.store.Valid() && bp in b.store.repr && d != 0
    modifies b.store, b.store.repr, b.tree, b`changed
    ensures b.store.Valid() && b.store.repr == old(b.store.repr) && b.changed
    ensures NoMore(old(b.store.contents), b.store.contents)
    ensures old(b.store.Stored(bp)) ==> moved == bp
    ensures moved != null ==> Has(old(b.store.contents), old(bp.file), old(bp.line)) && b.store.Stored(moved)
    ensures moved != null ==> moved.Value() == old(b.store.contents)[old(bp.file)][old(bp.line)].(line := old(bp.line) + d)
    ensures moved != null ==> b.store.contents == Moved(old(b.store.contents), old(bp.file), old(bp.line), moved.Value())
    ensures b.tree.View() == UpdateView(old(b.tree.View()), bp.Value())
    ensures !Has(old(b.store.contents), old(bp.file), old(bp.line) + d) ==>
      forall o | o in b.store.repr && o != moved :: o.Value() == old(o.Value()) && (old(b.store.Stored(o)) ==> b.store.Stored(o))
  {
    hide BreakStore.Valid, UpdateView, Moved, Keyed;
    ghost var s, f, l := b.store.contents, bp.file, bp.line;
    if b.store.Stored(bp) { b.store.StoredAt(f, l); }
    if Has(s, f, l) { MovedSizes(s, f, l, s[f][l].(line := l + d)); }
    moved := b.store.MoveToLine(bp.file, bp.line, bp.line + d);
    b.changed := true;
    b.tree.UpdateBreakpoint(bp);
  }

  lemma MovedIsShift(s: Store, f: string, l: int, at: int, d: int)
    requires Has(s, f, l) && l >= at && !Removed(at, d, l)
    ensures Moved(s, f, l, s[f][l].(line := l + d)) == s[f := ShiftOne(s[f], at, d, l)]
  {
  }

  /** A live breakpoint that is moved. */
  lemma MoveEffects(s: Store, w: View, f: string, l: int, at: int, d: int, v: View, r: nat, origin: map<nat, int>)
    requires Has(s, f, l) && l >= at && !Removed(at, d, l) && d != 0
    ensures var b := s[f][l].(line := l + d);
      && (l + d in s[f] ==> |Moved(s, f, l, b)[f]| == |s[f]| - 1)
      && Moved(s, f, l, b) == s[f := ShiftOne(s[f], at, d, l)]
      && (l + d !in s[f] && Linked(s, w) ==> Linked(Moved(s, f, l, b), UpdateView(w, b)))
      && (Linked(s, w) && ViewProgress(v, w, r, origin) && b.iter.fileRow == r ==> ViewProgress(v, UpdateView(w, b), r, origin))
  {
    hide Linked, UpdateView, ViewProgress, Moved, ShiftOne, Checked;
    var b := s[f][l].(line := l + d);
    MovedSizes(s, f, l, b);
    MovedIsShift(s, f, l, at, d);
    if l + d !in s[f] && Linked(s, w) {
      LinkedFile(s, w, f, l);
      UpdateLinked(s, w, f, l, b);
    }
    if Linked(s, w) && ViewProgress(v, w, r, origin) && b.iter.fileRow == r {
      if Checked(w) { MoveChecked(s, w, f, l, b); }
      UpdateProgress(v, w, r, origin, b);
    }
  }

  lemma LinkedFile(s: Store, w: View, f: string, l: int)
    requires Linked(s, w) && Has(s, f, l)
    ensures s[f][l].file == f && s[f][l].line == l
  {
    assert TreeKeyed(s[f], f);
  }

  /** A live breakpoint whose line was removed. */
  lemma DelEffects(s: Store, w: View, f: string, l: int, at: int, d: int, v: View, r: nat, origin: map<nat, int>)
    requires Has(s, f, l) && Removed(at, d, l)
    ensures Del(s, f, l) == s[f := ShiftOne(s[f], at, d, l)]
    ensures Linked(s, w) ==> Linked(Del(s, f, l), RemoveView(w, s[f][l]))
    ensures ViewProgress(v, w, r, origin) && s[f][l].iter.fileRow == r ==> ViewProgress(v, RemoveView(w, s[f][l]), r, origin)
    ensures NoMore(s, Del(s, f, l))
  {
    hide Linked, RemoveView, ViewProgress;
    DelSizes(s, f, l);
    if Linked(s, w) { RemoveLinked(s, w, f, l); }
    if ViewProgress(v, w, r, origin) && s[f][l].iter.fileRow == r { RemoveProgress(v, w, r, origin, s[f][l]); }
  }

  /** A breakpoint above the edit. */
  lemma StayEffects(s: Store, f: string, l: int, at: int, d: int)
    requires Has(s, f, l) && l < at
    ensures s[f := ShiftOne(s[f], at, d, l)] == s
  {
    assert s[f := s[f]] == s;
  }

  /**
   The body of the loop over the breakpoints of the edited document.  `v`, `r` and
   `origin` describe the view before the edit.
   */
  method ShiftItem(b: Breakpoints, bp: Breakpoint, at: int, d: int, ghost v: View, ghost r: nat, ghost origin: map<nat, int>)
    requires b.store.Valid() && bp in b.store.repr && d != 0
    requires d < 0 ==> b.store.Stored(bp)
    modifies b.store, b.store.repr, b.tree, b`changed
    ensures b.store.Valid() && b.store.repr == old(b.store.repr)
    ensures NoMore(old(b.store.contents), b.store.contents)
    ensures old(b.store.Stored(bp)) ==>
      var f, l, s := old(bp.file), old(bp.line), old(b.store.contents);
      && Has(s, f, l)
      && (Clash(s[f], at, d, l) ==> |b.store.contents[f]| == |s[f]| - 1)
      && (!Clash(s[f], at, d, l) ==>
        && b.store.contents == s[f := ShiftOne(s[f], at, d, l)]
        && (Linked(s, old(b.tree.View())) ==> Linked(b.store.contents, b.tree.View()))
        && (Linked(s, old(b.tree.View())) && ViewProgress(v, old(b.tree.View()), r, origin) && old(bp.iter).fileRow == r ==>
              ViewProgress(v, b.tree.View(), r, origin)))
    ensures old(b.store.Stored(bp)) && !Clash(old(b.store.contents)[old(bp.file)], at, d, old(bp.line)) ==>
      forall o | o in b.store.repr && o != bp && old(b.store.Stored(o)) :: b.store.Stored(o) && o.Value() == old(o.Value())
  {
    hide BreakStore.Valid, UpdateView, RemoveView, Moved, Keyed, Linked, ViewProgress, ShiftOne;
    ghost var f, l, s, w := bp.file, bp.line, b.store.contents, b.tree.View();
    if b.store.Stored(bp) {
      b.store.StoredAt(f, l);
      if l < at { StayEffects(s, f, l, at, d); }
      if Removed(at, d, l) {
        DelEffects(s, w, f, l, at, d, v, r, origin);
      } else if l >= at {
        MoveEffects(s, w, f, l, at, d, v, r, origin);
      }
    }
    if bp.freed {
      b.store.Scribble(bp);
    }
    if d > 0 && bp.line >= at {
      ghost var moved := MoveItem(b, bp, d);
    } else if d < 0 && bp.line >= at {
      if bp.line < at - d {
        b.RemoveIdle(bp.file, bp.line);
      } else {
        ghost var moved := MoveItem(b, bp, d);
      }
    }
  }

  /** The state of the loop before any breakpoint was moved onto another one. */
  ghost predicate OnCourse(s: Store, v: View, s': Store, v': View, file: string, at: int, d: int, origin: map<nat, int>, done: set<int>) {
    && file in s && file in s' && s' == s[file := s'[file]] && file in v.files
    && Progress(s[file], s'[file], at, d, done) && NoClashYet(s[file], at, d, done)
    && Linked(s', v') && ViewProgress(v, v', v.files[file], origin)
  }

  /** One loop iteration on course stays on course, or loses a breakpoint for good. */
  lemma OnCourseStep(s: Store, v: View, s': Store, v': View, v'': View, file: string, at: int, d: int,
                     origin: map<nat, int>, done: set<int>, lines: seq<int>, i: nat)
    requires Keyed(s) && OnCourse(s, v, s', v', file, at, d, origin, done)
    requires Ascent(s[file], lines, i, done) && i < |lines| && d != 0
    requires Linked(s'[file := ShiftOne(s'[file], at, d, lines[i])], v'') && ViewProgress(v, v'', v.files[file], origin)
    requires !Clash(s'[file], at, d, lines[i])
    ensures OnCourse(s, v, s'[file := ShiftOne(s'[file], at, d, lines[i])], v'', file, at, d, origin, done + {lines[i]})
  {
    hide Linked, ViewProgress, Progress, ShiftOne;
    KeyedAt(s, file);
    AscentStep(s[file], lines, i, done);
    AscendingStep(s[file], s'[file], at, d, done, lines[i]);
  }

  /** The breakpoints of the list from `i` on are still live, on their original lines. */
  ghost predicate LiveFrom(store: BreakStore, list: seq<Breakpoint>, lines: seq<int>, i: nat, file: string, r: nat)
    requires |lines| == |list|
    reads store`files, list
  {
    forall j | i <= j < |list| ::
      store.Stored(list[j]) && list[j].file == file && list[j].line == lines[j] && list[j].iter.fileRow == r
  }

  /** The list of a file's breakpoints at the start of the loop. */
  lemma ListStart(b: Breakpoints, list: seq<Breakpoint>, lines: seq<int>, file: string)
    requires b.store.Valid() && Agrees(b.store.contents, b.tree.View()) && |lines| == |list| && list != []
    requires forall i | 0 <= i < |list| ::
      b.store.Stored(list[i]) && list[i] in b.store.repr && !list[i].freed && list[i].file == file && lines[i] == list[i].line
      && Has(b.store.contents, file, list[i].line) && list[i].Value() == b.store.contents[file][list[i].line]
    requires forall i, j | 0 <= i < j < |list| :: list[i].line < list[j].line
    requires file in b.store.contents && forall l | l in b.store.contents[file] :: exists i :: 0 <= i < |list| && list[i].line == l
    ensures file in b.tree.View().files
    ensures Ascent(b.store.contents[file], lines, 0, {})
    ensures LiveFrom(b.store, list, lines, 0, file, b.tree.View().files[file])
  {
    hide Agrees, BreakStore.Valid;
    forall i | 0 <= i < |list|
      ensures file in b.tree.View().files && lines[i] in b.store.contents[file]
      ensures list[i].iter.fileRow == b.tree.View().files[file]
    {
      RowOfStored(b.store.contents, b.tree.View(), file, list[i].line);
    }
    assert Has(b.store.contents, file, list[0].line);
  }

  lemma AscentOrder(t: LineTree, lines: seq<int>, i: nat, done: set<int>)
    requires Ascent(t, lines, i, done)
    ensures forall j, k | 0 <= j < k < |lines| :: lines[j] < lines[k]
  {
  }

  lemma RowOfStored(s: Store, v: View, file: string, line: int)
    requires Agrees(s, v) && Has(s, file, line)
    ensures file in v.files && s[file][line].iter.fileRow == v.files[file]
  {
    var j := RowExists(s, v, file, line);
  }

  lemma OnCourseStart(s: Store, v: View, file: string, at: int, d: int, origin: map<nat, int>)
    requires Agrees(s, v) && file in s && file in v.files && ViewProgress(v, v, v.files[file], origin)
    ensures OnCourse(s, v, s, v, file, at, d, origin, {})
  {
    ProgressStart(s[file], at, d);
    assert s[file := s[file]] == s;
  }

  /** A breakpoint was moved onto another one, so that fewer are left. */
  ghost predicate LostOne(s: Store, s': Store, file: string, at: int, d: int) {
    file in s && file in s' && d > 0 && !NoClash(s[file], at, d) && |s'[file]| < |s[file]|
  }

  /** One iteration of the loop over the breakpoints of the edited document. */
  method ShiftNext(b: Breakpoints, list: seq<Breakpoint>, i: nat, file: string, at: int, d: int, ghost lines: seq<int>,
                   ghost origin: map<nat, int>, ghost s: Store, ghost v: View, ghost done: set<int>, ghost before: bool)
      returns (ghost lost: bool)
    requires b.store.Valid() && d != 0 && |lines| == |list| && i < |list| && list[i] in b.store.repr
    requires forall j | 0 <= j < |list| :: list[j] in b.store.repr
    requires Keyed(s) && file in s && file in v.files && file in b.store.contents
    requires Ascent(s[file], lines, i, done) && NoMore(s, b.store.contents)
    requires before ==> LostOne(s, b.store.contents, file, at, d)
    requires !before ==> OnCourse(s, v, b.store.contents, b.tree.View(), file, at, d, origin, done)
    requires !before ==> LiveFrom(b.store, list, lines, i, file, v.files[file])
    modifies b.store, b.store.repr, b.tree, b`changed
    ensures b.store.Valid() && b.store.repr == old(b.store.repr)
    ensures NoMore(old(b.store.contents), b.store.contents)
    ensures lost ==> LostOne(s, b.store.contents, file, at, d)
    ensures !lost ==> OnCourse(s, v, b.store.contents, b.tree.View(), file, at, d, origin, done + {lines[i]})
    ensures !lost ==> LiveFrom(b.store, list, lines, i + 1, file, v.files[file])
  {
    hide BreakStore.Valid, Linked, ViewProgress, Progress, ShiftOne, NoClashYet, Ascent;
    ghost var s', v' := b.store.contents, b.tree.View();
    AscentOrder(s[file], lines, i, done);
    AscentStep(s[file], lines, i, done);
    KeyedAt(s, file);
    lost := before;
    if !before { AscendingStep(s[file], s'[file], at, d, done, lines[i]); }
    ShiftItem(b, list[i], at, d, v, v.files[file], origin);
    if !before {
      if Clash(s'[file], at, d, lines[i]) {
        lost := true;
      } else {
        OnCourseStep(s, v, s', v', b.tree.View(), file, at, d, origin, done, lines, i);
      }
    }
  }

  /** The loop over the breakpoints of the edited document. */
  method ShiftList(b: Breakpoints, list: seq<Breakpoint>, file: string, at: int, d: int, ghost lines: seq<int>, ghost origin: map<nat, int>)
      returns (ghost lost: bool, ghost done: set<int>)
    requires b.store.Valid() && d != 0 && |lines| == |list|
    requires forall j | 0 <= j < |list| :: list[j] in b.store.repr
    requires Keyed(b.store.contents) && file in b.store.contents && file in b.tree.View().files
    requires OnCourse(b.store.contents, b.tree.View(), b.store.contents, b.tree.View(), file, at, d, origin, {})
    requires Ascent(b.store.contents[file], lines, 0, {})
    requires LiveFrom(b.store, list, lines, 0, file, b.tree.View().files[file])
    modifies b.store, b.store.repr, b.tree, b`changed
    ensures b.store.Valid() && b.store.repr == old(b.store.repr)
    ensures file in b.store.contents
    ensures lost ==> LostOne(old(b.store.contents), b.store.contents, file, at, d)
    ensures !lost ==> OnCourse(old(b.store.contents), old(b.tree.View()), b.store.contents, b.tree.View(), file, at, d, origin, done)
    ensures Ascent(old(b.store.contents)[file], lines, |lines|, done)
  {
    hide BreakStore.Valid, Linked, Ascent, OnCourse, LiveFrom, Keyed;
    ghost var s, v := b.store.contents, b.tree.View();
    lost, done := false, {};
    var i := 0;
    while i < |list|
      invariant 0 <= i <= |list|
      invariant b.store.Valid() && b.store.repr == old(b.store.repr)
      invariant NoMore(s, b.store.contents) && Ascent(s[file], lines, i, done)
      invariant lost ==> LostOne(s, b.store.contents, file, at, d)
      invariant !lost ==> OnCourse(s, v, b.store.contents, b.tree.View(), file, at, d, origin, done)
      invariant !lost ==> LiveFrom(b.store, list, lines, i, file, v.files[file])
    {
      AscentStep(s[file], lines, i, done);
      lost := ShiftNext(b, list, i, file, at, d, lines, origin, s, v, done, lost);
      done := done + {lines[i]};
      i := i + 1;
    }
  }

  const SC_MOD_INSERTTEXT: bv32 := 0x1
  const SC_MOD_DELETETEXT: bv32 := 0x2

  lemma ProgressChecked(v: View, v': View, r: nat, origin: map<nat, int>)
    requires ViewProgress(v, v', r, origin)
    ensures Checked(v) ==> Checked(v')
  {
    hide Checked;
  }

  /** An exact shift of one file keeps everything in step. */
  lemma ShiftInStep(s: Store, v: View, s': Store, v': View, file: string, at: int, d: int,
                    origin: map<nat, int>, lines: seq<int>, done: set<int>)
    requires Agrees(s, v) && Sized(s) && file in s && file in v.files
    requires OnCourse(s, v, s', v', file, at, d, origin, done) && Ascent(s[file], lines, |lines|, done) && d != 0
    requires OriginOf(s[file], origin)
    ensures s' == s[file := s'[file]] && IsShift(s[file], s'[file], at, d) && (d < 0 || NoClash(s[file], at, d))
    ensures Agrees(s', v') && Sized(s') && (Checked(v) ==> Checked(v'))
  {
    ProgressChecked(v, v', v.files[file], origin);
    hide Agrees, Linked, ViewProgress, Progress, NoClashYet, Ascent, OriginOf, Sized, Checked;
    AscentEnd(s[file], s'[file], at, d, lines, done);
    ProgressSorted(s, v, s', v', file, origin, at, d);
    SizedShift(s, s', file, at, d);
  }

  /** The breakpoints of a file before and after an edit that is meant to shift them. */
  ghost predicate ShiftOutcome(s: Store, s': Store, file: string, at: int, d: int, inStep: bool) {
    && file in s && file in s'
    && (IsShift(s[file], s'[file], at, d) <==> d < 0 || NoClash(s[file], at, d))
    && (d < 0 || NoClash(s[file], at, d) ==> inStep && s' == s[file := s'[file]])
  }

  lemma ExactOutcome(s: Store, s': Store, file: string, at: int, d: int)
    requires file in s && file in s' && IsShift(s[file], s'[file], at, d) && s' == s[file := s'[file]]
    requires d < 0 || NoClash(s[file], at, d)
    ensures ShiftOutcome(s, s', file, at, d, true)
  {
  }

  lemma EmptyOutcome(s: Store, file: string, at: int, d: int)
    requires file in s && forall l :: l !in s[file]
    ensures ShiftOutcome(s, s, file, at, d, true)
  {
    EmptyShift(s[file], at, d);
    assert s[file := s[file]] == s;
  }

  /** A loop that lost a breakpoint was not exact. */
  lemma LostOutcome(s: Store, s': Store, file: string, at: int, d: int, inStep: bool)
    requires LostOne(s, s', file, at, d)
    ensures ShiftOutcome(s, s', file, at, d, inStep)
  {
    hide IsShift, NoClash;
    if IsShift(s[file], s'[file], at, d) {
      ShiftKeepsSize(s[file], s'[file], at, d);
    }
  }

  lemma LostClashes(s: Store, s': Store, file: string, at: int, d: int)
    requires LostOne(s, s', file, at, d)
    ensures d > 0 && file in s && !NoClash(s[file], at, d)
  {
  }

  /** The part of on_editor_notify that runs when the document has breakpoints. */
  method ShiftDocument(b: Breakpoints, file: string, at: int, d: int)
    requires b.InStep() && b.state == Idle && d != 0 && file in b.store.contents
    modifies b.store, b.store.repr, b.tree, b`changed
    ensures b.store.Valid() && b.store.repr == old(b.store.repr)
    ensures ShiftOutcome(old(b.store.contents), b.store.contents, file, at, d, b.InStep())
    ensures d < 0 || NoClash(old(b.store.contents)[file], at, d) ==> (old(Checked(b.tree.View())) ==> Checked(b.tree.View()))
    ensures b.store.contents != old(b.store.contents) ==> b.changed
  {
    hide Agrees, Linked, ViewProgress, Progress, BreakStore.Valid, Sized, NoClashYet, Checked,
      Ascent, OriginOf, LiveFrom, IsShift, NoClash, ShiftOutcome;
    var list := b.store.GetForDocument(file);
    if list != [] {
      ghost var s, v, lines := b.store.contents, b.tree.View(), b.Lines(list);
      ListStart(b, list, lines, file);
      ghost var origin := OriginExists(s, v, file);
      OnCourseStart(s, v, file, at, d, origin);
      KeyedOf(s, v);
      ghost var lost, done := ShiftList(b, list, file, at, d, lines, origin);
      if lost {
        LostOutcome(s, b.store.contents, file, at, d, b.InStep());
        LostClashes(s, b.store.contents, file, at, d);
      } else {
        ShiftInStep(s, v, b.store.contents, b.tree.View(), file, at, d, origin, lines, done);
        ExactOutcome(s, b.store.contents, file, at, d);
      }
      b.changed := true;
    } else {
      EmptyOutcome(b.store.contents, file, at, d);
    }
  }

  /**
   The SCN_MODIFIED branch of on_editor_notify in the idle state: an edit at `line` that
   adds (or, if negative, removes) `linesAdded` lines.  The shift is exact if and only if
   lines were removed or no two breakpoints from `line` on are `linesAdded` apart.
   */
  method OnModified(b: Breakpoints, file: string, modificationType: bv32, line: int, linesAdded: int)
    requires b.InStep() && b.state == Idle
    modifies b.store, b.store.repr, b.tree, b`changed
    ensures b.store.Valid() && b.store.repr == old(b.store.repr)
    ensures modificationType == 0 || linesAdded == 0 || file !in old(b.store.contents) ==>
      b.InStep() && b.store.contents == old(b.store.contents) && b.tree.View() == old(b.tree.View())
    ensures file in old(b.store.contents) && (linesAdded < 0 || NoClash(old(b.store.contents)[file], line, linesAdded)) ==>
      (old(Checked(b.tree.View())) ==> Checked(b.tree.View()))
    ensures modificationType != 0 && linesAdded != 0 && file in old(b.store.contents) ==>
      ShiftOutcome(old(b.store.contents), b.store.contents, file, line, linesAdded, b.InStep())
    ensures b.store.contents != old(b.store.contents) ==> b.changed
  {
    hide Agrees, ShiftOutcome, Checked, NoClash;
    if (SC_MOD_INSERTTEXT & modificationType != 0 || (SC_MOD_DELETETEXT != 0 && modificationType != 0)) && linesAdded != 0 {
      if file in b.store.files {
        ShiftDocument(b, file, line, linesAdded);
      }
    }
  }

  lemma LongNameUnset(s: Store, file: string, line: int)
    requires Sized(s)
    ensures |file| >= FILENAME_MAX ==> !Has(s, file, line)
  {
  }

  lemma KeyedOf(s: Store, v: View)
    requires Agrees(s, v)
    ensures Keyed(s)
  {
  }

  lemma EmptyShift(t: LineTree, at: int, d: int)
    requires forall l :: l !in t
    ensures IsShift(t, t, at, d) && NoClash(t, at, d)
  {
  }

  /** What a click on `line` does to the store. */
  ghost predicate Clicked(s: Store, s': Store, file: string, line: int) {
    if !Has(s, file, line) then
      && Has(s', file, line) && s' == Put(s, s'[file][line])
      && s'[file][line].enabled && s'[file][line].condition == "" && s'[file][line].hits == 0
    else if s[file][line].enabled then s' == Del(s, file, line)
    else s' == Set(s, file, line, s[file][line].(enabled := true))
  }

  /**
   Clicking in the margin (or the breakpoint key): an unset line gets an enabled
   breakpoint, an enabled one is removed, a disabled one is enabled.  While the debuggee is
   stopped GDB may refuse that; `added` is what it has for an unset line.
   */
  method OnMarginClick(b: Breakpoints, file: string, line: int) returns (ghost done: bool, ghost added: Option<GdbBreak>)
    requires b.InStep()
    modifies b.store, b.store.repr, b.tree, b.gdb, b`changed
    ensures var name := Truncate(file, FILENAME_MAX - 1);
      && (Has(old(b.store.contents), file, line) ==> b.InStep())
      && (!Has(old(b.store.contents), file, line) ==>
            && (b.state == Idle ==> (b.InStep() <==> !Has(old(b.store.contents), name, line)))
            && (b.state == Stopped ==> (b.InView() <==> done && !Has(old(b.store.contents), name, line)))
            && (b.state == Stopped && FitsNew(NewBreak(file, line, None, true, 0), old(b.gdb.table).next) ==>
                  (b.InStep() <==>
                    && done && added.Some? && Mirrors(added.value, NewBreak(file, line, None, true, 0))
                    && !Has(old(b.store.contents), name, line))))
    ensures Truncate(file, FILENAME_MAX - 1) == file ==>
      || Clicked(old(b.store.contents), b.store.contents, file, line)
      || (b.state == Stopped && b.gdb.refusals > old(b.gdb.refusals) && Has(old(b.store.contents), file, line)
          && b.store.contents == old(b.store.contents))
    ensures b.state == Idle ==> (old(Checked(b.tree.View())) ==> Checked(b.tree.View()))
  {
    hide Agrees, GdbAgrees, BreakStore.Valid, Sized, NewIter, FitsNew, Checked, Box, RowsLinked;
    done, added := true, None;
    LongNameUnset(b.store.contents, file, line);
    RowsOf(b.store.contents, b.tree.View());
    var bs := b.store.GetState(file, line);
    match bs
    case NotSet =>
      done, added := b.Add(file, line, None, true, 0);
    case Enabled =>
      b.Remove(file, line);
    case Disabled =>
      b.Switch(file, line);
  }
}
