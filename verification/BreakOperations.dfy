/**
 The operations of breakpoints.c in the idle state and with the debuggee stopped.
 */
module Breakpoints {
  import opened Common
  import opened BreakModel
  import opened BreakTree
  import opened BreakAgreement
  import opened BreakChecks
  import opened BreakStore
  import opened GdbText
  import opened GdbMachine
  import opened GdbAgreement
  import opened DbmGdb

  datatype DebugState = Idle | Stopped

  /** File names and conditions fit the buffers of a breakpoint structure. */
  ghost predicate Sized(s: Store) {
    forall f, l | Has(s, f, l) :: |f| < FILENAME_MAX && |s[f][l].condition| <= CONDITION_MAX_LENGTH
  }

  class Breakpoints {
    const store: BreakStore
    const tree: BreakTree
    const gdb: Gdb
    var state: DebugState
    /** Raised by config_set_debug_changed. */
    var changed: bool

    /** `quotes` tells how GDB will list locations. */
    constructor (quotes: bool)
      ensures InStep() && store.contents == map[] && store.repr == {} && state == Idle && !changed
      ensures Checked(tree.View())
      ensures gdb.table.quotes == quotes
      ensures fresh(store) && fresh(tree) && fresh(gdb)
    {
      store := new BreakStore();
      tree := new BreakTree();
      gdb := new Gdb(quotes);
      state, changed := Idle, false;
    }

    /** Store and view agree. */
    ghost predicate InView()
      reads store`files, store`contents, store`repr, store.repr, tree
    {
      store.Valid() && Sized(store.contents) && Agrees(store.contents, tree.View())
    }

    /** Store, view and, while the debuggee is stopped, GDB's table agree. */
    ghost predicate InStep()
      reads `state, store`files, store`contents, store`repr, store.repr, tree, gdb
    {
      && InView()
      && (state == Stopped ==> GdbAgrees(store.contents, gdb.table))
    }

    // ----- Updating the views of one breakpoint

    /** on_add */
    method OnAdd(bp: Breakpoint)
      requires store.Valid() && store.Stored(bp)
      requires forall f | f in tree.files :: tree.files[f] in tree.rows
      modifies store`contents, tree, bp`iter
      ensures store.Valid() && store.Stored(bp)
      ensures bp.Value() == old(bp.Value()).(iter := NewIter(old(tree.View()), bp.file))
      ensures store.contents == Set(old(store.contents), bp.file, bp.line, bp.Value())
      ensures tree.View() == AddView(old(tree.View()), bp.Value())
    {
      store.AssignIter(bp, NewIter(tree.View(), bp.file));
      tree.AddBreakpoint(bp);
    }

    /** on_remove */
    method OnRemove(bp: Breakpoint)
      requires store.Valid() && store.Stored(bp)
      modifies store, store.repr, tree
      ensures store.Valid() && store.repr == old(store.repr)
      ensures bp.freed
      ensures store.contents == Del(old(store.contents), old(bp.file), old(bp.line))
      ensures tree.View() == RemoveView(old(tree.View()), old(bp.Value()))
      ensures forall o | o in store.repr :: o.Value() == old(o.Value())
      ensures forall o | o in store.repr && o != bp && old(store.Stored(o)) :: store.Stored(o)
    {
      store.StoredAt(bp.file, bp.line);
      tree.RemoveBreakpoint(bp);
      store.Delete(bp.file, bp.line);
    }

    /** on_set_hits_count */
    method OnSetHitsCount(bp: Breakpoint)
      modifies tree
      ensures tree.View() == HitsCell(old(tree.View()), bp.Value())
    {
      tree.SetHitscount(bp);
    }

    /** on_set_condition */
    method OnSetCondition(bp: Breakpoint)
      modifies tree
      ensures tree.View() == ConditionCell(old(tree.View()), bp.Value())
    {
      tree.SetCondition(bp);
    }

    /** on_switch */
    method OnSwitch(bp: Breakpoint)
      modifies tree
      ensures tree.View() == CheckRow(EnabledCell(old(tree.View()), bp.Value()), bp.iter.fileRow)
    {
      tree.SetEnabled(bp);
    }

    // ----- Adding

    /**
     breaks_add_debug: `s` is the store without the new breakpoint, which has no row yet.
     `added` is the entry GDB has for it afterwards, if any; about GDB's table nothing is
     known when a command does not fit.
     */
    method AddDebug(bp: Breakpoint, ghost s: Store) returns (done: bool, ghost added: Option<GdbBreak>)
      requires store.Valid() && store.Stored(bp) && bp.iter.kid == 0
      requires Agrees(s, tree.View()) && GdbAgrees(s, gdb.table)
      requires store.contents == Put(s, bp.Value())
      modifies store`contents, bp`iter, tree, gdb, `changed
      ensures store.Valid() && store.contents == Put(s, bp.Value())
      ensures bp.Value() == old(bp.Value()).(iter := bp.iter)
      ensures Agrees(store.contents, tree.View()) <==> done && !Has(s, bp.file, bp.line)
      ensures done ==> changed && added.Some?
      ensures done && !Has(s, bp.file, bp.line) && FitsNew(old(bp.Value()), old(gdb.table).next) ==>
        (GdbAgrees(store.contents, gdb.table) <==> Mirrors(added.value, bp.Value()))
      ensures gdb.refusals >= old(gdb.refusals)
      ensures gdb.refusals == old(gdb.refusals) ==> done
      ensures gdb.refusals == old(gdb.refusals) && FitsNew(old(bp.Value()), old(gdb.table).next) ==>
        (Mirrors(added.value, bp.Value()) <==> ShowsPlace(Shown(bp.file, bp.line, old(gdb.table).quotes), bp.file, bp.line))
    {
      hide Agrees, GdbAgrees, AddView, NewIter, BreakStore.Valid, FitsNew, Mirrors, Put, Configured;
      ghost var v, t := tree.View(), gdb.table;
      GdbNumbered(s, t);
      done, added := gdb.NewBreak(bp);
      if done {
        RowsOf(s, v);
        OnAdd(bp);
        SetAfterPut(s, old(bp.Value()), bp.Value());
        IdleOutcome(s, v, bp.Value());
        if FitsNew(old(bp.Value()), t.next) { CompleteMirrors(added.value, old(bp.Value()), bp.iter, t); }
        if !Has(s, bp.file, bp.line) && FitsNew(old(bp.Value()), t.next) {
          ConfiguredIter(added.value, old(bp.Value()), bp.iter, t);
          EntryAgrees(s, t, bp.Value(), added.value);
        }
        changed := true;
      } else {
        NoRowDisagrees(s, v, bp.Value());
      }
    }

    /** on_add and the flag, for a structure that was just inserted into store `s`. */
    method AddIdle(bp: Breakpoint, ghost s: Store)
      requires store.Valid() && store.Stored(bp) && store.contents == Put(s, bp.Value())
      requires RowsLinked(tree.View())
      modifies store`contents, bp`iter, tree, `changed
      ensures store.Valid() && store.contents == Put(s, bp.Value()) && changed
      ensures bp.Value() == old(bp.Value()).(iter := NewIter(old(tree.View()), bp.file))
      ensures tree.View() == AddView(old(tree.View()), bp.Value())
    {
      hide AddView, NewIter, BreakStore.Valid;
      OnAdd(bp);
      SetAfterPut(s, old(bp.Value()), bp.Value());
      changed := true;
    }

    /** break_new_full and the insertion into the file's tree */
    method NewStored(file: string, line: int, condition: Option<string>, enabled: bool, hitscount: int) returns (bp: Breakpoint)
      requires store.Valid()
      modifies store, store.repr
      ensures store.Valid() && store.Stored(bp) && fresh(bp) && store.repr == old(store.repr) + {bp}
      ensures bp.Value() == NewBreak(file, line, condition, enabled, hitscount)
      ensures store.contents == Put(old(store.contents), bp.Value())
      ensures Sized(old(store.contents)) ==> forall iter :: Sized(Put(old(store.contents), bp.Value().(iter := iter)))
    {
      hide BreakStore.Valid, Sized;
      ghost var s := store.contents;
      bp := new Breakpoint(Truncate(file, FILENAME_MAX - 1), line,
                           Truncate(if condition.Some? then condition.value else "", CONDITION_MAX_LENGTH), enabled, hitscount);
      store.Insert(bp);
      forall iter
        ensures Sized(s) ==> Sized(Put(s, bp.Value().(iter := iter)))
      {
        SizedPut(s, bp.Value().(iter := iter));
      }
    }

    /** breaks_add; in the idle state store and view need not have agreed before. */
    method Add(file: string, line: int, condition: Option<string>, enabled: bool, hitscount: int)
        returns (ghost done: bool, ghost added: Option<GdbBreak>)
      requires InStep() || (state == Idle && store.Valid() && RowsLinked(tree.View()))
      modifies store, store.repr, tree, gdb, `changed
      ensures store.Valid() && fresh(store.repr - old(store.repr))
      ensures var b := NewBreak(file, line, condition, enabled, hitscount);
        && (state == Idle ==>
              var b' := b.(iter := NewIter(old(tree.View()), b.file));
              changed && store.contents == Put(old(store.contents), b') && tree.View() == AddView(old(tree.View()), b'))
        && (state == Idle && old(InStep()) ==> (InStep() <==> !Has(old(store.contents), b.file, line)))
        && (state == Idle && RowsLinked(old(tree.View())) && Checked(old(tree.View())) ==>
              (Checked(tree.View()) <==> enabled || !Box(old(tree.View()), b.file)))
        && (state == Stopped ==> exists iter :: store.contents == Put(old(store.contents), b.(iter := iter)))
        && (state == Stopped ==> (InView() <==> done && !Has(old(store.contents), b.file, line)))
        && (state == Stopped && FitsNew(b, old(gdb.table).next) ==>
              (InStep() <==> done && added.Some? && Mirrors(added.value, b) && !Has(old(store.contents), b.file, line)))
      ensures gdb.refusals >= old(gdb.refusals)
      ensures var b := NewBreak(file, line, condition, enabled, hitscount);
        state == Stopped && FitsNew(b, old(gdb.table.next)) && gdb.refusals == old(gdb.refusals) ==>
          (InStep() <==> ShowsPlace(Shown(b.file, line, old(gdb.table.quotes)), b.file, line) && !Has(old(store.contents), b.file, line))
    {
      hide Agrees, GdbAgrees, AddView, NewIter, BreakStore.Valid, FitsNew, Mirrors, RowsLinked, Sized, Put, Checked, Box, ShowsPlace, Shown, Configured;
      done, added := true, None;
      ghost var s, v := store.contents, tree.View();
      if InStep() { RowsOf(s, v); }
      var bp := NewStored(file, line, condition, enabled, hitscount);
      ghost var b := bp.Value();
      if state == Idle {
        AddIdle(bp, s);
        IdleOutcome(s, v, bp.Value());
        if RowsLinked(v) && Checked(v) { AddChecked(v, bp.Value()); }
      } else {
        var ok;
        ok, added := AddDebug(bp, s);
        done := ok;
        assert store.contents == Put(s, b.(iter := bp.iter));
        if ok { MirrorsIter(added.value, b, bp.iter); }
      }
      assert bp.Value() == b.(iter := bp.iter);
    }

    // ----- Removing

    /** debug_remove_break and, if GDB agrees, on_remove. */
    method TryRemove(bp: Breakpoint) returns (done: bool)
      requires store.Valid() && store.Stored(bp) && Has(store.contents, bp.file, bp.line)
      requires Agrees(store.contents, tree.View()) && GdbAgrees(store.contents, gdb.table)
      requires bp.Value() == store.contents[bp.file][bp.line]
      modifies store, store.repr, tree, gdb
      ensures store.Valid() && store.repr == old(store.repr)
      ensures Agrees(store.contents, tree.View()) && GdbAgrees(store.contents, gdb.table)
      ensures store.contents == if done then Del(old(store.contents), old(bp.file), old(bp.line)) else old(store.contents)
      ensures forall o | o in store.repr :: o.Value() == old(o.Value())
      ensures forall o | o in store.repr && o != bp && old(store.Stored(o)) :: store.Stored(o)
      ensures old(Checked(tree.View())) ==> Checked(tree.View())
      ensures gdb.refusals >= old(gdb.refusals)
      ensures gdb.refusals == old(gdb.refusals) ==> done
    {
      hide Agrees, GdbAgrees, RemoveView, BreakStore.Valid, Checked;
      ghost var s, t := store.contents, gdb.table;
      GdbNumbered(s, t);
      EntryThere(s, t, bp.file, bp.line);
      done := gdb.RemoveBreak(bp);
      if done {
        DeleteAgrees(s, t, bp.file, bp.line);
        if Checked(tree.View()) { RemoveChecked(tree.View(), bp.Value()); }
        RemoveAgrees(s, tree.View(), bp.file, bp.line);
        OnRemove(bp);
      }
    }

    /** breaks_remove in the idle state; the rows need not be sorted. */
    method RemoveIdle(file: string, line: int)
      requires store.Valid()
      modifies store, store.repr, tree, `changed
      ensures store.Valid() && store.repr == old(store.repr)
      ensures !Has(old(store.contents), file, line) ==> store.contents == old(store.contents) && tree.View() == old(tree.View())
      ensures Has(old(store.contents), file, line) ==>
        && store.contents == Del(old(store.contents), file, line)
        && tree.View() == RemoveView(old(tree.View()), old(store.contents)[file][line])
        && changed
      ensures forall o | o in store.repr :: o.Value() == old(o.Value())
      ensures forall o | o in store.repr && old(store.Stored(o)) && !(o.file == file && o.line == line) :: store.Stored(o)
    {
      hide RemoveView, BreakStore.Valid;
      var bp := store.Lookup(file, line);
      if bp != null {
        OnRemove(bp);
        changed := true;
      }
    }

    /** on_remove when idle, debug_remove_break first when stopped. */
    method RemoveStored(bp: Breakpoint) returns (done: bool)
      requires InStep() && store.Stored(bp)
      modifies store, store.repr, tree, gdb
      ensures InStep() && store.repr == old(store.repr)
      ensures Has(old(store.contents), old(bp.file), old(bp.line))
      ensures store.contents == if done then Del(old(store.contents), old(bp.file), old(bp.line)) else old(store.contents)
      ensures state == Idle ==> done && tree.View() == RemoveView(old(tree.View()), old(bp.Value()))
      ensures forall o | o in store.repr :: o.Value() == old(o.Value())
      ensures forall o | o in store.repr && o != bp && old(store.Stored(o)) :: store.Stored(o)
      ensures old(Checked(tree.View())) ==> Checked(tree.View())
      ensures gdb.refusals >= old(gdb.refusals)
      ensures state == Idle ==> gdb.refusals == old(gdb.refusals)
      ensures gdb.refusals == old(gdb.refusals) ==> done
    {
      hide Agrees, GdbAgrees, RemoveView, BreakStore.Valid, Checked;
      store.StoredAt(bp.file, bp.line);
      SizedDel(store.contents, bp.file, bp.line);
      if state == Idle {
        done := true;
        if Checked(tree.View()) { RemoveChecked(tree.View(), bp.Value()); }
        RemoveAgrees(store.contents, tree.View(), bp.file, bp.line);
        OnRemove(bp);
      } else {
        done := TryRemove(bp);
      }
    }

    /** breaks_remove, with breaks_remove_debug */
    method Remove(file: string, line: int)
      requires InStep()
      modifies store, store.repr, tree, gdb, `changed
      ensures InStep() && store.repr == old(store.repr)
      ensures !Has(old(store.contents), file, line) ==> store.contents == old(store.contents) && tree.View() == old(tree.View())
      ensures Has(old(store.contents), file, line) ==>
        var s := Del(old(store.contents), file, line);
        store.contents == s || (state == Stopped && gdb.refusals > old(gdb.refusals) && store.contents == old(store.contents))
      ensures store.contents != old(store.contents) ==> changed
      ensures forall o | o in store.repr :: o.Value() == old(o.Value())
      ensures forall o | o in store.repr && old(store.Stored(o)) && !(o.file == file && o.line == line) :: store.Stored(o)
      ensures state == Idle && Has(old(store.contents), file, line) ==>
        tree.View() == RemoveView(old(tree.View()), old(store.contents)[file][line])
      ensures old(Checked(tree.View())) ==> Checked(tree.View())
      ensures gdb.refusals >= old(gdb.refusals)
    {
      hide Agrees, GdbAgrees, RemoveView, BreakStore.Valid, Checked;
      var bp := store.Lookup(file, line);
      if bp != null {
        var done := RemoveStored(bp);
        if done { changed := true; }
      }
    }

    /** The places of some structures. */
    function Places(list: seq<Breakpoint>): (p: seq<(string, int)>)
      reads list
      ensures |p| == |list|
    {
      seq(|list|, i requires 0 <= i < |list| reads list => (list[i].file, list[i].line))
    }

    /** breaks_remove_list, with on_remove_list and breaks_remove_list_debug */
    method RemoveList(list: seq<Breakpoint>)
      requires InStep()
      requires forall i | 0 <= i < |list| :: store.Stored(list[i])
      requires forall i, j | 0 <= i < j < |list| :: list[i] != list[j]
      modifies store, store.repr, tree, gdb, `changed
      ensures InStep() && changed && store.repr == old(store.repr)
      ensures Purged(old(store.contents), store.contents, old(Places(list)), |list|)
      ensures state == Idle || gdb.refusals == old(gdb.refusals) ==> forall p | p in old(Places(list)) :: !Has(store.contents, p.0, p.1)
      ensures old(Checked(tree.View())) ==> Checked(tree.View())
      ensures gdb.refusals >= old(gdb.refusals)
    {
      hide Agrees, GdbAgrees, Sized, RemoveView, BreakStore.Valid, Purged, Cleared, Checked;
      ghost var s, places := store.contents, Places(list);
      NothingPurged(s, places);
      forall j | 0 <= j < |list|
        ensures list[j] in store.repr
      {
        store.StoredAt(list[j].file, list[j].line);
      }
      var i := 0;
      while i < |list|
        invariant 0 <= i <= |list| && state == old(state)
        invariant old(Checked(tree.View())) ==> Checked(tree.View())
        invariant InStep() && store.repr == old(store.repr)
        invariant forall j | 0 <= j < |list| :: list[j] in store.repr && places[j] == (list[j].file, list[j].line)
        invariant forall j | i <= j < |list| :: store.Stored(list[j])
        invariant Purged(s, store.contents, places, i)
        invariant gdb.refusals >= old(gdb.refusals) && (state == Idle ==> gdb.refusals == old(gdb.refusals))
        invariant gdb.refusals == old(gdb.refusals) ==> Cleared(store.contents, places, i)
      {
        store.StoredAt(list[i].file, list[i].line);
        PurgeStep(s, store.contents, places, i);
        ClearStep(store.contents, places, i);
        var done := RemoveStored(list[i]);
        i := i + 1;
      }
      AllCleared(store.contents, places);
      changed := true;
    }

    // ----- Switching

    /** breaks_switch_debug: `s` is the store before the breakpoint was toggled. */
    method SwitchDebug(bp: Breakpoint, ghost s: Store)
      requires store.Valid() && store.Stored(bp)
      requires Agrees(s, tree.View()) && GdbAgrees(s, gdb.table) && Has(s, bp.file, bp.line)
      requires s[bp.file][bp.line] == bp.Value().(enabled := !bp.enabled)
      requires store.contents == Set(s, bp.file, bp.line, bp.Value())
      modifies store`contents, bp`enabled, tree, gdb, `changed
      ensures store.Valid() && Agrees(store.contents, tree.View()) && GdbAgrees(store.contents, gdb.table)
      ensures (store.contents == old(store.contents) && changed) || (gdb.refusals > old(gdb.refusals) && store.contents == s && changed == old(changed))
      ensures old(Checked(tree.View())) ==> Checked(tree.View())
      ensures gdb.refusals >= old(gdb.refusals)
    {
      hide Agrees, GdbAgrees, CheckRow, EnabledCell, BreakStore.Valid, Set, Apply, EditOf, FindBreak, Sends, FitsCount, FitsCondition, Checked;
      ghost var t := gdb.table;
      GdbNumbered(s, t);
      EntryThere(s, t, bp.file, bp.line);
      SendsAlways(t, bp.Value());
      var done := gdb.UpdateBreak(bp, UpdateEnable);
      if done {
        UpdateAgrees(s, t, bp.file, bp.line, bp.Value(), UpdateEnable);
        SwitchAgrees(s, tree.View(), bp.file, bp.line, bp.Value());
        if Checked(tree.View()) { SwitchChecked(tree.View(), bp.Value()); }
        OnSwitch(bp);
        changed := true;
      } else {
        store.AssignEnabled(bp, !bp.enabled);
        SetBack(s, bp.file, bp.line, old(bp.Value()));
      }
    }

    /** Toggles a stored breakpoint, then on_switch when idle and breaks_switch_debug when stopped. */
    method SwitchStored(bp: Breakpoint)
      requires InStep() && store.Stored(bp)
      modifies `changed, store`contents, bp`enabled, tree, gdb
      ensures InStep() && store.Stored(bp)
      ensures Has(old(store.contents), bp.file, bp.line)
      ensures var s := Set(old(store.contents), bp.file, bp.line, old(bp.Value()).(enabled := !old(bp.enabled)));
        || (store.contents == s && changed)
        || (state == Stopped && gdb.refusals > old(gdb.refusals) && store.contents == old(store.contents) && changed == old(changed))
      ensures old(Checked(tree.View())) ==> Checked(tree.View())
      ensures gdb.refusals >= old(gdb.refusals)
      ensures state == Idle ==> gdb.refusals == old(gdb.refusals)
    {
      hide Agrees, GdbAgrees, CheckRow, EnabledCell, BreakStore.Valid, Checked;
      ghost var s := store.contents;
      store.StoredAt(bp.file, bp.line);
      store.AssignEnabled(bp, !bp.enabled);
      SizedSet(s, bp.file, bp.line, bp.Value());
      if state == Idle {
        SwitchAgrees(s, tree.View(), bp.file, bp.line, bp.Value());
        if Checked(tree.View()) { SwitchChecked(tree.View(), bp.Value()); }
        OnSwitch(bp);
        changed := true;
      } else {
        SwitchDebug(bp, s);
      }
    }

    /** breaks_switch */
    method Switch(file: string, line: int)
      requires InStep()
      modifies `changed, store`contents, store.repr, tree, gdb
      ensures InStep()
      ensures !Has(old(store.contents), file, line) ==> store.contents == old(store.contents)
      ensures Has(old(store.contents), file, line) ==>
        var b := old(store.contents)[file][line];
        var s := Set(old(store.contents), file, line, b.(enabled := !b.enabled));
        store.contents == s || (state == Stopped && gdb.refusals > old(gdb.refusals) && store.contents == old(store.contents))
      ensures store.contents != old(store.contents) ==> changed
      ensures old(Checked(tree.View())) ==> Checked(tree.View())
      ensures gdb.refusals >= old(gdb.refusals)
    {
      hide Agrees, GdbAgrees, BreakStore.Valid, Sized, Checked;
      var bp := store.Lookup(file, line);
      if bp != null {
        SwitchStored(bp);
      }
    }

    /** Sets one stored breakpoint to `enabled`, as far as GDB allows. */
    method SetEnabledStored(bp: Breakpoint, enabled: bool)
      requires InStep() && store.Stored(bp)
      modifies `changed, store`contents, bp`enabled, tree, gdb
      ensures InStep() && store.Stored(bp)
      ensures Has(old(store.contents), bp.file, bp.line) && old(store.contents)[bp.file][bp.line] == old(bp.Value())
      ensures
        || store.contents == Set(old(store.contents), bp.file, bp.line, old(bp.Value()).(enabled := enabled))
        || (store.contents == old(store.contents) && (gdb.refusals > old(gdb.refusals) || old(bp.enabled) == enabled))
      ensures old(Checked(tree.View())) ==> Checked(tree.View())
      ensures gdb.refusals >= old(gdb.refusals)
      ensures state == Idle ==> gdb.refusals == old(gdb.refusals)
    {
      hide Agrees, GdbAgrees, BreakStore.Valid, Sized, Checked;
      store.StoredAt(bp.file, bp.line);
      if bp.enabled != enabled {
        SwitchStored(bp);
      }
    }

    /** on_set_enabled_list and breaks_set_{enabled,disabled}_list_debug */
    method SetEnabledList(list: seq<Breakpoint>, file: string, enabled: bool)
      requires InStep()
      requires forall j | 0 <= j < |list| :: store.Stored(list[j]) && list[j] in store.repr && list[j].file == file
      modifies `changed, store`contents, store.repr, tree, gdb
      ensures InStep()
      ensures Switched(old(store.contents), store.contents, file, enabled, old(Lines(list)), gdb.refusals > old(gdb.refusals))
      ensures old(Checked(tree.View())) ==> Checked(tree.View())
      ensures gdb.refusals >= old(gdb.refusals)
      ensures state == Idle ==> gdb.refusals == old(gdb.refusals)
    {
      hide Agrees, GdbAgrees, BreakStore.Valid, Sized, Switched, Checked;
      ghost var s, lines := store.contents, Lines(list);
      SwitchedNone(s, file, enabled, lines, false);
      var i := 0;
      while i < |list|
        invariant 0 <= i <= |list| && InStep()
        invariant old(Checked(tree.View())) ==> Checked(tree.View())
        invariant forall j | 0 <= j < |list| :: store.Stored(list[j]) && list[j].file == file && list[j].line == lines[j]
        invariant gdb.refusals >= old(gdb.refusals) && (state == Idle ==> gdb.refusals == old(gdb.refusals))
        invariant Switched(s, store.contents, file, enabled, lines[..i], gdb.refusals > old(gdb.refusals))
      {
        ghost var s', partial := store.contents, gdb.refusals > old(gdb.refusals);
        SetEnabledStored(list[i], enabled);
        SwitchedPartly(s, s', file, enabled, lines[..i], partial, gdb.refusals > old(gdb.refusals));
        SwitchedStep(s, s', file, enabled, lines, i, gdb.refusals > old(gdb.refusals));
        i := i + 1;
      }
      assert lines[..|lines|] == lines;
    }

    /** breaks_set_enabled_for_file */
    method SetEnabledForFile(file: string, enabled: bool)
      requires InStep()
      modifies `changed, store`contents, store.repr, tree, gdb
      ensures InStep() && changed
      ensures file !in old(store.contents) ==> store.contents == old(store.contents)
      ensures file in old(store.contents) ==>
        && store.contents == old(store.contents)[file := store.contents[file]]
        && store.contents[file].Keys == old(store.contents)[file].Keys
        && forall l | l in store.contents[file] ::
          var b := old(store.contents)[file][l];
          store.contents[file][l] == b.(enabled := enabled) || (state == Stopped && gdb.refusals > old(gdb.refusals) && store.contents[file][l] == b)
      ensures old(Checked(tree.View())) ==> Checked(tree.View())
      ensures gdb.refusals >= old(gdb.refusals)
    {
      hide Agrees, GdbAgrees, BreakStore.Valid, Sized, Switched, Checked;
      ghost var s := store.contents;
      var list := store.GetForDocument(file);
      ghost var lines := Lines(list);
      SetEnabledList(list, file, enabled);
      SwitchedAll(s, store.contents, file, enabled, lines, gdb.refusals > old(gdb.refusals));
      changed := true;
    }

    function Lines(list: seq<Breakpoint>): (lines: seq<int>)
      reads list
      ensures |lines| == |list| && forall i | 0 <= i < |list| :: lines[i] == list[i].line
    {
      seq(|list|, i requires 0 <= i < |list| reads list => list[i].line)
    }

    // ----- Hit counts

    /** breaks_set_hits_count_debug: `s` is the store before the count was changed. */
    method SetHitsCountDebug(bp: Breakpoint, ghost s: Store) returns (done: bool)
      requires FitsCount(bp.hitscount)
      requires Agrees(s, tree.View()) && GdbAgrees(s, gdb.table) && Has(s, bp.file, bp.line)
      requires bp.Value() == s[bp.file][bp.line].(hits := bp.hitscount)
      modifies tree, gdb, `changed
      ensures done ==> changed && Agrees(Set(s, bp.file, bp.line, bp.Value()), tree.View())
      ensures done ==> GdbAgrees(Set(s, bp.file, bp.line, bp.Value()), gdb.table)
      ensures !done ==> tree.View() == old(tree.View()) && gdb.table == old(gdb.table)
      ensures old(Checked(tree.View())) ==> Checked(tree.View())
      ensures gdb.refusals >= old(gdb.refusals)
      ensures gdb.refusals == old(gdb.refusals) ==> done
    {
      hide Agrees, GdbAgrees, HitsCell, Sends, FitsCondition, Apply, EditOf, FindBreak, Set, Checked;
      ghost var t := gdb.table;
      GdbNumbered(s, t);
      EntryThere(s, t, bp.file, bp.line);
      SendsAlways(t, bp.Value());
      done := gdb.UpdateBreak(bp, UpdateHitsCount);
      if done {
        UpdateAgrees(s, t, bp.file, bp.line, bp.Value(), UpdateHitsCount);
        CellAgrees(s, tree.View(), bp.file, bp.line, bp.Value());
        if Checked(tree.View()) { CellChecked(tree.View(), bp.Value()); }
        OnSetHitsCount(bp);
        changed := true;
      }
    }

    /**
     breaks_set_hits_count: `done` tells whether GDB took the count, when it was asked.
     A count that GDB refuses stays in the store only.
     */
    method SetHitsCount(file: string, line: int, count: int) returns (ghost done: bool)
      requires InStep() && FitsCount(count)
      modifies `changed, store`contents, store.repr, tree, gdb
      ensures !Has(old(store.contents), file, line) ==> done && store.contents == old(store.contents)
      ensures Has(old(store.contents), file, line) ==>
        store.contents == Set(old(store.contents), file, line, old(store.contents)[file][line].(hits := count))
      ensures state == Idle ==> done
      ensures InStep() <==> done || store.contents == old(store.contents)
      ensures done && store.contents != old(store.contents) ==> changed
      ensures old(Checked(tree.View())) ==> Checked(tree.View())
      ensures gdb.refusals >= old(gdb.refusals)
      ensures gdb.refusals == old(gdb.refusals) ==> done
    {
      hide Agrees, GdbAgrees, HitsCell, BreakStore.Valid, Checked;
      ghost var s := store.contents;
      done := true;
      var bp := store.Lookup(file, line);
      if bp != null {
        store.AssignHits(bp, count);
        SizedSet(s, file, line, bp.Value());
        if state == Idle {
          CellAgrees(s, tree.View(), file, line, bp.Value());
          if Checked(tree.View()) { CellChecked(tree.View(), bp.Value()); }
        OnSetHitsCount(bp);
          changed := true;
        } else {
          var ok := SetHitsCountDebug(bp, s);
          done := ok;
          if s[file][line] == bp.Value() {
            SetSame(s, file, line);
          } else if !ok {
            StaleHitsDisagree(s, tree.View(), file, line, bp.Value());
          }
        }
      }
    }

    // ----- Conditions

    /** Takes the old condition back from the tree view. */
    method RevertCondition(bp: Breakpoint, ghost s: Store)
      requires store.Valid() && store.Stored(bp)
      requires Agrees(s, tree.View()) && Sized(s) && Has(s, bp.file, bp.line)
      requires bp.Value() == s[bp.file][bp.line].(condition := bp.condition)
      requires store.contents == Set(s, bp.file, bp.line, bp.Value())
      modifies store`contents, bp`condition
      ensures store.Valid() && store.contents == s
    {
      hide Agrees, BreakStore.Valid, KidAt;
      RowCondition(s, tree.View(), bp.file, bp.line);
      var oldcondition := tree.GetCondition(bp);
      store.AssignCondition(bp, Truncate(oldcondition, CONDITION_MAX_LENGTH));
      SetBack(s, bp.file, bp.line, old(bp.Value()));
    }

    /**
     breaks_set_condition_debug: `s` is the store before the condition was changed.  GDB's
     table is known unless the command does not fit.
     */
    method SetConditionDebug(bp: Breakpoint, ghost s: Store)
      requires store.Valid() && store.Stored(bp)
      requires Agrees(s, tree.View()) && GdbAgrees(s, gdb.table) && Sized(s) && Has(s, bp.file, bp.line)
      requires bp.Value() == s[bp.file][bp.line].(condition := bp.condition)
      requires store.contents == Set(s, bp.file, bp.line, bp.Value())
      modifies store`contents, bp`condition, tree, gdb, `changed
      ensures store.Valid() && Agrees(store.contents, tree.View())
      ensures Sends(old(gdb.table), old(bp.Value()), UpdateCondition) ==> GdbAgrees(store.contents, gdb.table)
      ensures (store.contents == old(store.contents) && changed) || (gdb.refusals > old(gdb.refusals) && store.contents == s && changed == old(changed))
      ensures old(Checked(tree.View())) ==> Checked(tree.View())
      ensures gdb.refusals >= old(gdb.refusals)
    {
      hide Agrees, GdbAgrees, ConditionCell, BreakStore.Valid, Sends, KidAt, Checked, Set, Apply, EditOf, FindBreak;
      ghost var t := gdb.table;
      GdbNumbered(s, t);
      EntryThere(s, t, bp.file, bp.line);
      var done := gdb.UpdateBreak(bp, UpdateCondition);
      if done {
        UpdateAgrees(s, t, bp.file, bp.line, bp.Value(), UpdateCondition);
        CellAgrees(s, tree.View(), bp.file, bp.line, bp.Value());
        if Checked(tree.View()) { CellChecked(tree.View(), bp.Value()); }
        OnSetCondition(bp);
        changed := true;
      } else {
        RevertCondition(bp, s);
      }
    }

    /** breaks_set_condition */
    method SetCondition(file: string, line: int, condition: string)
      requires InStep()
      modifies `changed, store`contents, store.repr, tree, gdb
      ensures InView()
      ensures state == Idle ==> InStep()
      ensures ConditionSent(old(store.contents), old(gdb.table), file, line, Truncate(condition, CONDITION_MAX_LENGTH)) ==> InStep()
      ensures !Has(old(store.contents), file, line) ==> store.contents == old(store.contents)
      ensures Has(old(store.contents), file, line) ==>
        var b := old(store.contents)[file][line];
        var s := Set(old(store.contents), file, line, b.(condition := Truncate(condition, CONDITION_MAX_LENGTH)));
        store.contents == s || (state == Stopped && gdb.refusals > old(gdb.refusals) && store.contents == old(store.contents))
      ensures store.contents != old(store.contents) ==> changed
      ensures old(Checked(tree.View())) ==> Checked(tree.View())
      ensures gdb.refusals >= old(gdb.refusals)
    {
      hide Agrees, GdbAgrees, ConditionCell, BreakStore.Valid, Sends, Checked;
      ghost var s := store.contents;
      var bp := store.Lookup(file, line);
      if bp != null {
        store.AssignCondition(bp, Truncate(condition, CONDITION_MAX_LENGTH));
        SizedSet(s, file, line, bp.Value());
        if state == Idle {
          CellAgrees(s, tree.View(), file, line, bp.Value());
          if Checked(tree.View()) { CellChecked(tree.View(), bp.Value()); }
        OnSetCondition(bp);
          changed := true;
        } else {
          SetConditionDebug(bp, s);
        }
      }
    }
  }

  /** The command that sets a condition fits the command buffer, if there is one. */
  ghost predicate ConditionSent(s: Store, t: Table, file: string, line: int, condition: string) {
    Has(s, file, line) ==> Sends(t, s[file][line].(condition := condition), UpdateCondition)
  }

  /** Only some of the first `n` places were removed from `s`; all else is as it was. */
  ghost predicate Purged(s: Store, s': Store, places: seq<(string, int)>, n: nat)
    requires n <= |places|
  {
    && (forall f, l | Has(s', f, l) :: Has(s, f, l) && s'[f][l] == s[f][l])
    && (forall f, l | Has(s, f, l) && (f, l) !in places[..n] :: Has(s', f, l))
  }

  lemma NothingPurged(s: Store, places: seq<(string, int)>)
    ensures Purged(s, s, places, 0) && Cleared(s, places, 0)
  {
  }

  /** The first `n` places have no breakpoint. */
  ghost predicate Cleared(s: Store, places: seq<(string, int)>, n: nat)
    requires n <= |places|
  {
    forall j | 0 <= j < n :: !Has(s, places[j].0, places[j].1)
  }

  lemma ClearStep(s: Store, places: seq<(string, int)>, n: nat)
    requires n < |places| && Has(s, places[n].0, places[n].1)
    ensures Cleared(s, places, n) ==> Cleared(Del(s, places[n].0, places[n].1), places, n + 1)
  {
  }

  lemma AllCleared(s: Store, places: seq<(string, int)>)
    ensures Cleared(s, places, |places|) ==> forall p | p in places :: !Has(s, p.0, p.1)
  {
  }

  lemma PurgeStep(s: Store, s': Store, places: seq<(string, int)>, n: nat)
    requires n < |places| && Purged(s, s', places, n) && Has(s', places[n].0, places[n].1)
    ensures Purged(s, s', places, n + 1)
    ensures Purged(s, Del(s', places[n].0, places[n].1), places, n + 1)
  {
    assert places[..n + 1] == places[..n] + [places[n]];
  }

  lemma SizedDel(s: Store, f: string, l: int)
    requires Sized(s) && Has(s, f, l)
    ensures Sized(Del(s, f, l))
  {
  }

  /** Exactly the breakpoints on `lines` of `file` have been set to `enabled`, or some of them if `partial`. */
  ghost predicate Switched(s: Store, s': Store, file: string, enabled: bool, lines: seq<int>, partial: bool) {
    if file !in s then s' == s
    else
      && file in s' && s' == s[file := s'[file]] && s'[file].Keys == s[file].Keys
      && (forall l | l in s[file] :: s'[file][l] == s[file][l] || (l in lines && s'[file][l] == s[file][l].(enabled := enabled)))
      && (partial || forall l | l in s[file] && l in lines :: s'[file][l] == s[file][l].(enabled := enabled))
  }

  lemma SwitchedNone(s: Store, file: string, enabled: bool, lines: seq<int>, partial: bool)
    ensures Switched(s, s, file, enabled, lines[..0], partial)
  {
  }

  lemma SwitchedPartly(s: Store, s': Store, file: string, enabled: bool, lines: seq<int>, partial: bool, partial': bool)
    requires Switched(s, s', file, enabled, lines, partial) && (partial ==> partial')
    ensures Switched(s, s', file, enabled, lines, partial')
  {
  }

  lemma SwitchedStep(s: Store, s': Store, file: string, enabled: bool, lines: seq<int>, i: nat, partial: bool)
    requires i < |lines| && Has(s', file, lines[i])
    requires Switched(s, s', file, enabled, lines[..i], partial)
    ensures var b := s'[file][lines[i]];
      && (partial || b.enabled == enabled ==> Switched(s, s', file, enabled, lines[..i + 1], partial))
      && Switched(s, Set(s', file, lines[i], b.(enabled := enabled)), file, enabled, lines[..i + 1], partial)
  {
    assert lines[..i + 1] == lines[..i] + [lines[i]];
    var b := s'[file][lines[i]];
    var s'' := Set(s', file, lines[i], b.(enabled := enabled));
    assert s'' == s[file := s''[file]];
  }

  lemma SwitchedAll(s: Store, s': Store, file: string, enabled: bool, lines: seq<int>, partial: bool)
    requires Switched(s, s', file, enabled, lines, partial)
    requires file in s ==> forall l | l in s[file] :: l in lines
    ensures file !in s ==> s' == s
    ensures file in s ==> file in s' && s' == s[file := s'[file]] && s'[file].Keys == s[file].Keys
    ensures file in s ==> forall l | l in s[file] ::
      s'[file][l] == s[file][l].(enabled := enabled) || (partial && s'[file][l] == s[file][l])
  {
  }

  /** The structure that break_new_full fills in. */
  function NewBreak(file: string, line: int, condition: Option<string>, enabled: bool, hitscount: int): Break {
    Break(Truncate(file, FILENAME_MAX - 1), line, Truncate(if condition.Some? then condition.value else "", CONDITION_MAX_LENGTH),
          enabled, hitscount, Iter(0, 0))
  }

  lemma RowsOf(s: Store, v: View)
    requires Agrees(s, v)
    ensures RowsLinked(v) && OrderLinked(v)
    ensures forall f | f in v.files :: v.files[f] in v.rows
  {
  }

  /** Adding in the idle state. */
  lemma IdleOutcome(s: Store, v: View, b: Break)
    requires b.iter == NewIter(v, b.file) && RowsLinked(v)
    ensures Agrees(s, v) ==> (Agrees(Put(s, b), AddView(v, b)) <==> !Has(s, b.file, b.line))
  {
    hide AddView, NewIter;
    if Agrees(s, v) {
      hide Agrees;
      if Has(s, b.file, b.line) { AddTwiceDisagrees(s, v, b); } else { AddAgrees(s, v, b); }
    }
  }

  lemma SetAfterPut(s: Store, b: Break, b': Break)
    requires b'.file == b.file && b'.line == b.line
    ensures Has(Put(s, b), b.file, b.line) && Set(Put(s, b), b.file, b.line, b') == Put(s, b')
  {
    var tree := if b.file in s then s[b.file] else map[];
    assert tree[b.line := b][b.line := b'] == tree[b.line := b'];
  }

  lemma SizedPut(s: Store, b: Break)
    requires |b.file| < FILENAME_MAX && |b.condition| <= CONDITION_MAX_LENGTH
    ensures Sized(s) ==> Sized(Put(s, b))
  {
  }

  lemma MirrorsIter(g: GdbBreak, b: Break, iter: Iter)
    ensures Mirrors(g, b.(iter := iter)) == Mirrors(g, b)
  {
  }

  /** An entry that has all settings mirrors its breakpoint if it is found again. */
  lemma CompleteMirrors(g: GdbBreak, b: Break, iter: Iter, t: Table)
    requires Configured(g, b, t.next, t.quotes)
    ensures g.ignore == b.hits && g.condition == b.condition && g.enabled == b.enabled ==>
      (Mirrors(g, b.(iter := iter)) <==> ShowsPlace(Shown(b.file, b.line, t.quotes), b.file, b.line))
  {
    hide ShowsPlace, Shown;
  }

  lemma ConfiguredIter(g: GdbBreak, b: Break, iter: Iter, t: Table)
    ensures Configured(g, b.(iter := iter), t.next, t.quotes) == Configured(g, b, t.next, t.quotes)
  {
  }

  /** The table agrees after an insertion exactly when the new entry is found and has all settings. */
  lemma EntryAgrees(s: Store, t: Table, b: Break, g: GdbBreak)
    requires GdbAgrees(s, t) && !Has(s, b.file, b.line) && t.next < MAX_NUMBER
    requires Configured(g, b, t.next, t.quotes)
    ensures GdbAgrees(Put(s, b), Appended(t, g)) <==> Mirrors(g, b)
  {
    hide GdbAgrees;
    if Mirrors(g, b) {
      InsertAgrees(s, t, b, g);
    } else {
      BadEntryDisagrees(s, t, b, g);
    }
  }

  lemma SizedSet(s: Store, f: string, l: int, b: Break)
    requires Sized(s) && Has(s, f, l) && |b.condition| <= CONDITION_MAX_LENGTH
    ensures Sized(Set(s, f, l, b))
  {
  }

  lemma SetSame(s: Store, f: string, l: int)
    requires Has(s, f, l)
    ensures Set(s, f, l, s[f][l]) == s
  {
    assert s[f][l := s[f][l]] == s[f];
  }

  /** The tree view still has the stored condition. */
  lemma RowCondition(s: Store, v: View, f: string, l: int)
    requires Agrees(s, v) && Has(s, f, l)
    ensures var j := KidAt(v, s[f][l].iter);
      j >= 0 && v.rows[s[f][l].iter.fileRow].kids[j].condition == s[f][l].condition
  {
    var j := RowExists(s, v, f, l);
  }

  lemma EntryThere(s: Store, t: Table, f: string, l: int)
    requires GdbAgrees(s, t) && Has(s, f, l)
    ensures FindBreak(t.breaks, f, l) >= 0
  {
    assert Mirrored(s, t.breaks, f, l);
  }

  lemma GdbNumbered(s: Store, t: Table)
    requires GdbAgrees(s, t)
    ensures WellNumbered(t)
  {
  }

  lemma SetBack(s: Store, f: string, l: int, b: Break)
    requires Has(s, f, l)
    ensures Set(Set(s, f, l, b), f, l, s[f][l]) == s
  {
    assert s[f][l := b][l := s[f][l]] == s[f];
  }

  /** GDB's table after a successful update of one setting. */
  lemma UpdateAgrees(s: Store, t: Table, f: string, l: int, b: Break, activity: Activity)
    requires GdbAgrees(s, t) && Has(s, f, l)
    requires match activity
      case UpdateEnable => b == s[f][l].(enabled := b.enabled)
      case UpdateCondition => b == s[f][l].(condition := b.condition)
      case UpdateHitsCount => b == s[f][l].(hits := b.hits)
    ensures var i := FindBreak(t.breaks, f, l);
      i >= 0 && GdbAgrees(Set(s, f, l, b), t.(breaks := t.breaks[i := Apply(t.breaks[i], EditOf(b, activity))]))
  {
    assert Mirrored(s, t.breaks, f, l) && TreeKeyed(s[f], f);
    var i := FindBreak(t.breaks, f, l);
    hide GdbAgrees;
    ChangeAgrees(s, t, f, l, b, Apply(t.breaks[i], EditOf(b, activity)));
  }
}
