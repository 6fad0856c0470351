/**
 Whole runs of breakpoint operations: whatever the user does while the debugger is idle or
 stopped, the breakpoints are what the operations say, and store, tree view and GDB's table
 stay in step.
 */
module BreakRuns {
  import opened Common
  import opened BreakModel
  import opened BreakTree
  import opened BreakChecks
  import opened BreakStore
  import opened Breakpoints
  import opened LineShift
  import opened Callbacks
  import GdbAgreement
  import DbmGdb

  // ----- What a user knows about the breakpoints

  datatype Setting = Setting(condition: string, enabled: bool, hits: int)

  type Place = (string, int)

  /** The settings of the breakpoints by place. */
  type Places = map<Place, Setting>

  function SettingOf(b: Break): Setting {
    Setting(b.condition, b.enabled, b.hits)
  }

  ghost function PlacesOf(s: Store): (places: set<Place>)
    ensures forall f, l :: (f, l) in places <==> Has(s, f, l)
  {
    set f, l | f in s && l in s[f] :: (f, l)
  }

  ghost function Flat(s: Store): (m: Places)
    ensures forall f, l :: (f, l) in m <==> Has(s, f, l)
    ensures forall f, l | Has(s, f, l) :: m[(f, l)] == SettingOf(s[f][l])
  {
    map p | p in PlacesOf(s) :: SettingOf(s[p.0][p.1])
  }

  // ----- What the operations mean

  datatype Op =
    | AddOp(file: string, line: int, condition: Option<string>, enabled: bool, hits: int)
    | RemoveOp(file: string, line: int)
    | RemoveFileOp(file: string)
    | SwitchOp(file: string, line: int)
    | HitsOp(file: string, line: int, count: int)
    | ConditionOp(file: string, line: int, text: string)
    | EnableOp(file: string, enabled: bool)
    | EditOp(file: string, line: int, linesAdded: int)

  function Change(m: Places, p: Place, setting: Setting -> Setting): Places {
    if p in m then m[p := setting(m[p])] else m
  }

  /** Where an edit takes a place. */
  function ShiftedPlace(file: string, at: int, d: int, p: Place): Place {
    if p.0 == file then (file, Shifted(at, d, p.1)) else p
  }

  predicate RemovedPlace(file: string, at: int, d: int, p: Place) {
    p.0 == file && Removed(at, d, p.1)
  }

  ghost function ShiftPlaces(m: Places, file: string, at: int, d: int): Places {
    map p | p in m && !RemovedPlace(file, at, d, p) :: ShiftedPlace(file, at, d, p) := m[p]
  }

  /** The breakpoints after an operation. */
  ghost function Effect(m: Places, op: Op): Places {
    match op
    case AddOp(file, line, condition, enabled, hits) =>
      var b := NewBreak(file, line, condition, enabled, hits);
      m[(b.file, line) := SettingOf(b)]
    case RemoveOp(file, line) => m - {(file, line)}
    case RemoveFileOp(file) => map p | p in m && p.0 != file :: m[p]
    case SwitchOp(file, line) => Change(m, (file, line), (s: Setting) => s.(enabled := !s.enabled))
    case HitsOp(file, line, count) => Change(m, (file, line), (s: Setting) => s.(hits := count))
    case ConditionOp(file, line, text) =>
      Change(m, (file, line), (s: Setting) => s.(condition := Truncate(text, CONDITION_MAX_LENGTH)))
    case EnableOp(file, enabled) => map p | p in m :: if p.0 == file then m[p].(enabled := enabled) else m[p]
    case EditOp(file, line, linesAdded) => ShiftPlaces(m, file, line, linesAdded)
  }

  /** Not a second breakpoint on a line, not an edit that moves one breakpoint onto another. */
  ghost predicate Allowed(m: Places, op: Op) {
    match op
    case AddOp(file, line, _, _, _) => (Truncate(file, FILENAME_MAX - 1), line) !in m
    case HitsOp(_, _, count) => DbmGdb.FitsCount(count)
    case EditOp(file, line, d) => d < 0 || d == 0 || forall l | (file, l) in m && l >= line :: (file, l + d) !in m
    case _ => true
  }

  /** The two maps have the same at one place. */
  ghost predicate SameAt(m: Places, m': Places, f: string, l: int) {
    ((f, l) in m <==> (f, l) in m') && ((f, l) in m ==> m[(f, l)] == m'[(f, l)])
  }

  lemma SameEverywhere(m: Places, m': Places)
    requires forall f, l :: SameAt(m, m', f, l)
    ensures m == m'
  {
    forall p: Place
      ensures p in m <==> p in m'
      ensures p in m ==> m[p] == m'[p]
    {
      assert SameAt(m, m', p.0, p.1);
    }
  }

  /** Each place is as the operation leaves it, or unchanged. */
  ghost predicate Step(m: Places, m': Places, op: Op) {
    forall f, l :: SameAt(m', Effect(m, op), f, l) || SameAt(m', m, f, l)
  }

  /** What became of an operation: all of it, or perhaps only a part where GDB refused something. */
  ghost predicate Outcome(m: Places, m': Places, op: Op, partial: bool) {
    if partial then Step(m, m', op) else m' == Effect(m, op)
  }

  lemma Pointwise(m: Places, m': Places, op: Op, partial: bool)
    requires forall f, l :: SameAt(m', Effect(m, op), f, l) || (partial && SameAt(m', m, f, l))
    ensures Outcome(m, m', op, partial)
  {
    hide Effect;
    if !partial { SameEverywhere(m', Effect(m, op)); }
  }

  lemma AllOrNothing(m: Places, m': Places, op: Op, partial: bool)
    requires m' == Effect(m, op) || (partial && m' == m)
    ensures Outcome(m, m', op, partial)
  {
    hide Effect;
    assert forall f, l :: SameAt(m', m', f, l);
  }

  /**
   The file checkboxes stay right: a disabled breakpoint is added only to a file that has one
   already.
   */
  ghost predicate KeepsBoxes(m: Places, op: Op) {
    op.AddOp? && !op.enabled ==> exists p :: p in m && p.0 == Truncate(op.file, FILENAME_MAX - 1) && !m[p].enabled
  }

  /** The breakpoints after some operations. */
  ghost function EffectAll(m: Places, ops: seq<Op>): Places
    decreases |ops|
  {
    if ops == [] then m else Effect(EffectAll(m, ops[..|ops| - 1]), ops[|ops| - 1])
  }

  ghost predicate AllAllowed(m: Places, ops: seq<Op>) {
    forall i | 0 <= i < |ops| :: Allowed(EffectAll(m, ops[..i]), ops[i])
  }

  ghost predicate AllKeepBoxes(m: Places, ops: seq<Op>) {
    forall i | 0 <= i < |ops| :: KeepsBoxes(EffectAll(m, ops[..i]), ops[i])
  }

  // ----- What the operations do to the store

  lemma FlatPut(s: Store, b: Break)
    ensures Flat(Put(s, b)) == Flat(s)[(b.file, b.line) := SettingOf(b)]
  {
  }

  lemma FlatDel(s: Store, f: string, l: int)
    requires Has(s, f, l)
    ensures Flat(Del(s, f, l)) == Flat(s) - {(f, l)}
  {
  }

  lemma FlatSet(s: Store, f: string, l: int, b: Break)
    requires Has(s, f, l)
    ensures Flat(Set(s, f, l, b)) == Flat(s)[(f, l) := SettingOf(b)]
  {
  }

  lemma FlatUnset(s: Store, f: string, l: int)
    requires !Has(s, f, l)
    ensures Flat(s) - {(f, l)} == Flat(s)
  {
  }

  /** One place of a file whose breakpoints were removed. */
  lemma PurgedAt(s: Store, s': Store, file: string, places: seq<Place>, f: string, l: int)
    requires Purged(s, s', places, |places|)
    requires forall k :: Has(s, file, k) <==> (file, k) in places
    requires forall p | p in places :: p.0 == file
    ensures SameAt(Flat(s'), Effect(Flat(s), RemoveFileOp(file)), f, l) || SameAt(Flat(s'), Flat(s), f, l)
    ensures Cleared(s', places, |places|) ==> SameAt(Flat(s'), Effect(Flat(s), RemoveFileOp(file)), f, l)
  {
    assert places[..|places|] == places;
    assert (f, l) in places ==> exists i :: 0 <= i < |places| && places[i] == (f, l);
  }

  /** One place after the breakpoints of a file were switched, or some of them if `partial`. */
  lemma EnabledAt(s: Store, s': Store, file: string, enabled: bool, partial: bool, f: string, l: int)
    requires SwitchedFile(s, s', file, enabled, partial)
    ensures SameAt(Flat(s'), Effect(Flat(s), EnableOp(file, enabled)), f, l) || (partial && SameAt(Flat(s'), Flat(s), f, l))
  {
    assert Has(s', f, l) <==> Has(s, f, l);
  }

  /** What breaks_set_enabled_for_file does to the store. */
  ghost predicate SwitchedFile(s: Store, s': Store, file: string, enabled: bool, partial: bool) {
    if file !in s then s' == s
    else
      && file in s' && s' == s[file := s'[file]] && s'[file].Keys == s[file].Keys
      && forall l | l in s'[file] :: s'[file][l] == s[file][l].(enabled := enabled) || (partial && s'[file][l] == s[file][l])
  }

  lemma FlatShift(s: Store, s': Store, file: string, at: int, d: int)
    requires file in s && file in s' && s' == s[file := s'[file]] && IsShift(s[file], s'[file], at, d)
    ensures Flat(s') == ShiftPlaces(Flat(s), file, at, d)
  {
    var m' := ShiftPlaces(Flat(s), file, at, d);
    forall f, l
      ensures SameAt(Flat(s'), m', f, l)
    {
      hide IsShift, ShiftPlaces;
      ShiftAt(s, s', file, at, d, f, l);
    }
    SameEverywhere(Flat(s'), m');
  }

  lemma ShiftAt(s: Store, s': Store, file: string, at: int, d: int, f: string, l: int)
    requires file in s && file in s' && s' == s[file := s'[file]] && IsShift(s[file], s'[file], at, d)
    ensures SameAt(Flat(s'), ShiftPlaces(Flat(s), file, at, d), f, l)
  {
    hide IsShift, Flat;
    var m, m' := Flat(s), ShiftPlaces(Flat(s), file, at, d);
    if (f, l) in m' {
      var p :| p in m && !RemovedPlace(file, at, d, p) && ShiftedPlace(file, at, d, p) == (f, l);
      assert m'[(f, l)] == m[p];
      assert Has(s, p.0, p.1);
      ShiftTo(s, s', file, at, d, p);
    }
    if Has(s', f, l) {
      var p := ShiftFrom(s, s', file, at, d, f, l);
      assert p in m;
    }
  }

  /** The settings of a breakpoint after the edit, at its new place. */
  lemma ShiftTo(s: Store, s': Store, file: string, at: int, d: int, p: Place)
    requires file in s && file in s' && s' == s[file := s'[file]] && IsShift(s[file], s'[file], at, d)
    requires Has(s, p.0, p.1) && !RemovedPlace(file, at, d, p)
    ensures var q := ShiftedPlace(file, at, d, p);
      Has(s', q.0, q.1) && SettingOf(s'[q.0][q.1]) == SettingOf(s[p.0][p.1])
  {
    assert p.0 == file ==> GoesTo(s[file], s'[file], at, d, p.1);
  }

  /** Where a breakpoint was before the edit. */
  lemma ShiftFrom(s: Store, s': Store, file: string, at: int, d: int, f: string, l: int) returns (p: Place)
    requires file in s && file in s' && s' == s[file := s'[file]] && IsShift(s[file], s'[file], at, d)
    requires Has(s', f, l)
    ensures Has(s, p.0, p.1) && !RemovedPlace(file, at, d, p) && ShiftedPlace(file, at, d, p) == (f, l)
  {
    if f == file {
      assert ComesFrom(s[file], at, d, l);
      p := (f, Unshifted(at, d, l));
    } else {
      p := (f, l);
    }
  }

  /** An edit that leaves the number of lines alone, or that is in a file without breakpoints. */
  lemma FlatUnmoved(s: Store, file: string, at: int, d: int)
    requires d == 0 || file !in s
    ensures ShiftPlaces(Flat(s), file, at, d) == Flat(s)
  {
    var m := Flat(s);
    forall p | p in m
      ensures ShiftedPlace(file, at, d, p) == p && !RemovedPlace(file, at, d, p)
    {
      assert Has(s, p.0, p.1);
    }
  }

  /** Adding keeps the checkbox right exactly as the operation tells. */
  lemma BoxKept(s: Store, v: View, op: Op)
    requires Agrees(s, v) && op.AddOp?
    ensures RowsLinked(v)
    ensures var file := Truncate(op.file, FILENAME_MAX - 1);
      Checked(v) ==> (file in v.files ==> v.files[file] in v.rows) && (op.enabled || !Box(v, file) <==> KeepsBoxes(Flat(s), op))
  {
    hide Checked, Box, Agrees;
    RowsOf(s, v);
    if Checked(v) { BoxIs(s, v, Truncate(op.file, FILENAME_MAX - 1)); }
  }

  // ----- The operations

  /** breaks_add on an unset line. */
  method Add(b: Breakpoints, op: Op)
    requires b.InStep() && b.state == Idle && op.AddOp? && Allowed(Flat(b.store.contents), op)
    modifies b.store, b.store.repr, b.tree, b.gdb, b`changed
    ensures b.InStep() && b.state == Idle && fresh(b.store.repr - old(b.store.repr))
    ensures Outcome(Flat(old(b.store.contents)), Flat(b.store.contents), op, false)
    ensures old(Checked(b.tree.View())) ==> (Checked(b.tree.View()) <==> KeepsBoxes(Flat(old(b.store.contents)), op))
  {
    hide Agrees, BreakStore.Valid, Sized, GdbAgreement.GdbAgrees, NewIter, AddView, Flat, Checked, Box, KeepsBoxes, RowsLinked;
    BoxKept(b.store.contents, b.tree.View(), op);
    var v := NewBreak(op.file, op.line, op.condition, op.enabled, op.hits);
    assert !Has(b.store.contents, v.file, v.line);
    FlatPut(b.store.contents, v.(iter := NewIter(b.tree.View(), v.file)));
    ghost var done, added := b.Add(op.file, op.line, op.condition, op.enabled, op.hits);
  }

  method Remove(b: Breakpoints, op: Op)
    requires b.InStep() && op.RemoveOp?
    modifies b.store, b.store.repr, b.tree, b.gdb, b`changed
    ensures b.InStep() && b.store.repr == old(b.store.repr)
    ensures b.gdb.refusals >= old(b.gdb.refusals)
    ensures Outcome(Flat(old(b.store.contents)), Flat(b.store.contents), op, b.state == Stopped && b.gdb.refusals > old(b.gdb.refusals))
    ensures old(Checked(b.tree.View())) ==> Checked(b.tree.View())
  {
    hide Breakpoints.InStep, Flat, Outcome, Checked;
    ghost var s := b.store.contents;
    if Has(s, op.file, op.line) { FlatDel(s, op.file, op.line); } else { FlatUnset(s, op.file, op.line); }
    b.Remove(op.file, op.line);
    AllOrNothing(Flat(s), Flat(b.store.contents), op, b.state == Stopped && b.gdb.refusals > old(b.gdb.refusals));
  }

  method RemoveFile(b: Breakpoints, op: Op)
    requires b.InStep() && op.RemoveFileOp?
    modifies b.store, b.store.repr, b.tree, b.gdb, b`changed
    ensures b.InStep() && b.store.repr == old(b.store.repr)
    ensures b.gdb.refusals >= old(b.gdb.refusals)
    ensures Outcome(Flat(old(b.store.contents)), Flat(b.store.contents), op, b.state == Stopped && b.gdb.refusals > old(b.gdb.refusals))
    ensures old(Checked(b.tree.View())) ==> Checked(b.tree.View())
  {
    hide Agrees, Sized, GdbAgreement.GdbAgrees, BreakStore.Valid, Flat, Effect, Outcome, Purged, Cleared, SameAt, Checked;
    ghost var s := b.store.contents;
    var list := b.store.GetForDocument(op.file);
    ghost var places := b.Places(list);
    PlacesInFile(b, list, op.file);
    b.RemoveList(list);
    if b.state == Idle || b.gdb.refusals == old(b.gdb.refusals) { AreCleared(b.store.contents, places); }
    forall f, l
      ensures SameAt(Flat(b.store.contents), Effect(Flat(s), op), f, l)
        || (b.state == Stopped && b.gdb.refusals > old(b.gdb.refusals) && SameAt(Flat(b.store.contents), Flat(s), f, l))
    {
      PurgedAt(s, b.store.contents, op.file, places, f, l);
    }
    Pointwise(Flat(s), Flat(b.store.contents), op, b.state == Stopped && b.gdb.refusals > old(b.gdb.refusals));
  }

  lemma AreCleared(s: Store, places: seq<Place>)
    requires forall p | p in places :: !Has(s, p.0, p.1)
    ensures Cleared(s, places, |places|)
  {
  }

  /** The places of a file's breakpoints. */
  lemma PlacesInFile(b: Breakpoints, list: seq<Breakpoint>, file: string)
    requires forall i | 0 <= i < |list| :: list[i].file == file && Has(b.store.contents, file, list[i].line)
    requires file in b.store.contents ==>
      forall l | l in b.store.contents[file] :: exists i :: 0 <= i < |list| && list[i].line == l
    ensures forall l :: Has(b.store.contents, file, l) <==> (file, l) in b.Places(list)
    ensures forall p | p in b.Places(list) :: p.0 == file
  {
    var places := b.Places(list);
    assert forall i | 0 <= i < |list| :: places[i] == (file, list[i].line);
    forall l | Has(b.store.contents, file, l)
      ensures (file, l) in places
    {
      var i :| 0 <= i < |list| && list[i].line == l;
      assert places[i] == (file, l);
    }
  }

  method Switch(b: Breakpoints, op: Op)
    requires b.InStep() && op.SwitchOp?
    modifies b.store, b.store.repr, b.tree, b.gdb, b`changed
    ensures b.InStep() && b.store.repr == old(b.store.repr)
    ensures b.gdb.refusals >= old(b.gdb.refusals)
    ensures Outcome(Flat(old(b.store.contents)), Flat(b.store.contents), op, b.state == Stopped && b.gdb.refusals > old(b.gdb.refusals))
    ensures old(Checked(b.tree.View())) ==> Checked(b.tree.View())
  {
    hide Breakpoints.InStep, Flat, Outcome, Checked;
    ghost var s := b.store.contents;
    if Has(s, op.file, op.line) {
      FlatSet(s, op.file, op.line, s[op.file][op.line].(enabled := !s[op.file][op.line].enabled));
    }
    b.Switch(op.file, op.line);
    AllOrNothing(Flat(s), Flat(b.store.contents), op, b.state == Stopped && b.gdb.refusals > old(b.gdb.refusals));
  }

  method SetHits(b: Breakpoints, op: Op)
    requires b.InStep() && b.state == Idle && op.HitsOp? && Allowed(Flat(b.store.contents), op)
    modifies b.store, b.store.repr, b.tree, b.gdb, b`changed
    ensures b.InStep() && b.store.repr == old(b.store.repr)
    ensures Outcome(Flat(old(b.store.contents)), Flat(b.store.contents), op, false)
    ensures old(Checked(b.tree.View())) ==> Checked(b.tree.View())
  {
    hide Breakpoints.InStep, Flat, Checked;
    ghost var s := b.store.contents;
    if Has(s, op.file, op.line) {
      FlatSet(s, op.file, op.line, s[op.file][op.line].(hits := op.count));
    }
    ghost var done := b.SetHitsCount(op.file, op.line, op.count);
  }

  method SetCondition(b: Breakpoints, op: Op)
    requires b.InStep() && op.ConditionOp?
    requires b.state == Stopped ==> DbmGdb.FitsCondition(Truncate(op.text, CONDITION_MAX_LENGTH))
    modifies b.store, b.store.repr, b.tree, b.gdb, b`changed
    ensures b.InStep() && b.store.repr == old(b.store.repr)
    ensures b.gdb.refusals >= old(b.gdb.refusals)
    ensures Outcome(Flat(old(b.store.contents)), Flat(b.store.contents), op, b.state == Stopped && b.gdb.refusals > old(b.gdb.refusals))
    ensures old(Checked(b.tree.View())) ==> Checked(b.tree.View())
  {
    hide Breakpoints.InStep, Breakpoints.InView, Flat, Outcome, ConditionSent, DbmGdb.FitsCondition, Checked;
    ghost var s := b.store.contents;
    if Has(s, op.file, op.line) {
      FlatSet(s, op.file, op.line, s[op.file][op.line].(condition := Truncate(op.text, CONDITION_MAX_LENGTH)));
    }
    if b.state == Stopped { IsSent(b, op); }
    b.SetCondition(op.file, op.line, op.text);
    AllOrNothing(Flat(s), Flat(b.store.contents), op, b.state == Stopped && b.gdb.refusals > old(b.gdb.refusals));
  }

  lemma IsSent(b: Breakpoints, op: Op)
    requires b.InStep() && b.state == Stopped && op.ConditionOp?
    requires DbmGdb.FitsCondition(Truncate(op.text, CONDITION_MAX_LENGTH))
    ensures ConditionSent(b.store.contents, b.gdb.table, op.file, op.line, Truncate(op.text, CONDITION_MAX_LENGTH))
  {
    hide BreakStore.Valid, Agrees, Sized, DbmGdb.Sends, DbmGdb.FitsCondition;
    if Has(b.store.contents, op.file, op.line) {
      DbmGdb.SendsAlways(b.gdb.table, b.store.contents[op.file][op.line].(condition := Truncate(op.text, CONDITION_MAX_LENGTH)));
    }
  }

  method SetEnabled(b: Breakpoints, op: Op)
    requires b.InStep() && op.EnableOp?
    modifies b.store, b.store.repr, b.tree, b.gdb, b`changed
    ensures b.InStep() && b.store.repr == old(b.store.repr)
    ensures b.gdb.refusals >= old(b.gdb.refusals)
    ensures Outcome(Flat(old(b.store.contents)), Flat(b.store.contents), op, b.state == Stopped && b.gdb.refusals > old(b.gdb.refusals))
    ensures old(Checked(b.tree.View())) ==> Checked(b.tree.View())
  {
    hide Breakpoints.InStep, Flat, Effect, Outcome, SameAt, Checked;
    ghost var s := b.store.contents;
    b.SetEnabledForFile(op.file, op.enabled);
    forall f, l
      ensures SameAt(Flat(b.store.contents), Effect(Flat(s), op), f, l)
        || (b.state == Stopped && b.gdb.refusals > old(b.gdb.refusals) && SameAt(Flat(b.store.contents), Flat(s), f, l))
    {
      EnabledAt(s, b.store.contents, op.file, op.enabled, b.state == Stopped && b.gdb.refusals > old(b.gdb.refusals), f, l);
    }
    Pointwise(Flat(s), Flat(b.store.contents), op, b.state == Stopped && b.gdb.refusals > old(b.gdb.refusals));
  }

  /** An edit that moves no breakpoint onto another one. */
  method Edit(b: Breakpoints, op: Op)
    requires b.InStep() && b.state == Idle && op.EditOp? && Allowed(Flat(b.store.contents), op)
    modifies b.store, b.store.repr, b.tree, b`changed
    ensures b.InStep() && b.state == Idle && b.store.repr == old(b.store.repr)
    ensures Outcome(Flat(old(b.store.contents)), Flat(b.store.contents), op, false)
    ensures old(Checked(b.tree.View())) ==> Checked(b.tree.View())
  {
    hide Agrees, Sized, IsShift, GdbAgreement.GdbAgrees, BreakStore.Valid, ShiftPlaces, Checked;
    ghost var s, d := b.store.contents, op.linesAdded;
    assert op.file in s && d != 0 ==> d < 0 || NoClash(s[op.file], op.line, d) by {
      if op.file in s && d > 0 { AllowedApart(s, op); }
    }
    hide NoClash, Flat;
    OnModified(b, op.file, SC_MOD_INSERTTEXT, op.line, op.linesAdded);
    if d == 0 || op.file !in s {
      FlatUnmoved(s, op.file, op.line, d);
    } else {
      FlatShift(s, b.store.contents, op.file, op.line, d);
    }
  }

  lemma AllowedApart(s: Store, op: Op)
    requires op.EditOp? && op.linesAdded > 0 && op.file in s && Allowed(Flat(s), op)
    ensures NoClash(s[op.file], op.line, op.linesAdded)
  {
    forall l | l in s[op.file] && l >= op.line
      ensures l + op.linesAdded !in s[op.file]
    {
      assert (op.file, l) in Flat(s);
      assert (op.file, l + op.linesAdded) !in Flat(s);
    }
  }

  // ----- Runs

  method DoIdle(b: Breakpoints, op: Op)
    requires b.InStep() && b.state == Idle && Allowed(Flat(b.store.contents), op)
    modifies b.store, b.store.repr, b.tree, b.gdb, b`changed
    ensures b.InStep() && b.state == Idle && fresh(b.store.repr - old(b.store.repr))
    ensures Flat(b.store.contents) == Effect(Flat(old(b.store.contents)), op)
    ensures KeepsBoxes(Flat(old(b.store.contents)), op) ==> (old(Checked(b.tree.View())) ==> Checked(b.tree.View()))
  {
    hide Breakpoints.InStep, Effect, Flat, Allowed, Checked, KeepsBoxes;
    match op
    case AddOp(_, _, _, _, _) => Add(b, op);
    case RemoveOp(_, _) => Remove(b, op);
    case RemoveFileOp(_) => RemoveFile(b, op);
    case SwitchOp(_, _) => Switch(b, op);
    case HitsOp(_, _, _) => SetHits(b, op);
    case ConditionOp(_, _, _) => SetCondition(b, op);
    case EnableOp(_, _) => SetEnabled(b, op);
    case EditOp(_, _, _) => Edit(b, op);
  }

  /**
   In the idle state the breakpoints are what the operations make them, and everything stays in
   step; so do the checkboxes as long as no disabled breakpoint is added to a file without one.
   */
  method RunIdle(b: Breakpoints, ops: seq<Op>)
    requires b.InStep() && b.state == Idle && AllAllowed(Flat(b.store.contents), ops)
    modifies b.store, b.store.repr, b.tree, b.gdb, b`changed
    ensures b.InStep() && b.state == Idle
    ensures Flat(b.store.contents) == EffectAll(Flat(old(b.store.contents)), ops)
    ensures AllKeepBoxes(Flat(old(b.store.contents)), ops) ==> (old(Checked(b.tree.View())) ==> Checked(b.tree.View()))
  {
    hide Breakpoints.InStep, Effect, Flat, Allowed, Checked, KeepsBoxes;
    ghost var m := Flat(b.store.contents);
    for i := 0 to |ops|
      invariant b.InStep() && b.state == Idle && fresh(b.store.repr - old(b.store.repr))
      invariant Flat(b.store.contents) == EffectAll(m, ops[..i])
      invariant AllKeepBoxes(m, ops) ==> (old(Checked(b.tree.View())) ==> Checked(b.tree.View()))
    {
      assert ops[..i + 1][..i] == ops[..i];
      DoIdle(b, ops[i]);
    }
    assert ops[..|ops|] == ops;
  }

  /** Operations that keep everything in step whatever GDB refuses. */
  predicate WhileStopped(op: Op) {
    match op
    case RemoveOp(_, _) => true
    case RemoveFileOp(_) => true
    case SwitchOp(_, _) => true
    case ConditionOp(_, _, text) => DbmGdb.FitsCondition(Truncate(text, CONDITION_MAX_LENGTH))
    case EnableOp(_, _) => true
    case _ => false
  }

  method DoStopped(b: Breakpoints, op: Op)
    requires b.InStep() && b.state == Stopped && WhileStopped(op)
    modifies b.store, b.store.repr, b.tree, b.gdb, b`changed
    ensures b.InStep() && b.store.repr == old(b.store.repr)
    ensures b.gdb.refusals >= old(b.gdb.refusals)
    ensures Step(Flat(old(b.store.contents)), Flat(b.store.contents), op)
    ensures b.gdb.refusals == old(b.gdb.refusals) ==> Flat(b.store.contents) == Effect(Flat(old(b.store.contents)), op)
    ensures old(Checked(b.tree.View())) ==> Checked(b.tree.View())
  {
    hide Breakpoints.InStep, Step, Effect, Flat, DbmGdb.FitsCondition, Checked;
    ghost var m := Flat(b.store.contents);
    match op {
      case RemoveOp(_, _) => Remove(b, op);
      case RemoveFileOp(_) => RemoveFile(b, op);
      case SwitchOp(_, _) => Switch(b, op);
      case ConditionOp(_, _, _) => SetCondition(b, op);
      case EnableOp(_, _) => SetEnabled(b, op);
    }
    if Flat(b.store.contents) == Effect(m, op) { AllOrNothing(m, Flat(b.store.contents), op, true); }
  }

  /** `trace` leads from the first to the last breakpoints, operation by operation. */
  ghost predicate Traces(trace: seq<Places>, ops: seq<Op>, first: Places, last: Places) {
    && |trace| == |ops| + 1 && trace[0] == first && trace[|ops|] == last
    && forall i | 0 <= i < |ops| :: Step(trace[i], trace[i + 1], ops[i])
  }

  /**
   With the debuggee stopped, each operation has its effect on each place or, where GDB
   refuses, none; store, view and GDB's table stay in step.  If GDB refuses nothing, the
   breakpoints are what the operations make them.
   */
  method RunStopped(b: Breakpoints, ops: seq<Op>) returns (ghost trace: seq<Places>)
    requires b.InStep() && b.state == Stopped && forall i | 0 <= i < |ops| :: WhileStopped(ops[i])
    modifies b.store, b.store.repr, b.tree, b.gdb, b`changed
    ensures b.InStep() && b.state == Stopped && GdbAgreement.GdbAgrees(b.store.contents, b.gdb.table)
    ensures Traces(trace, ops, Flat(old(b.store.contents)), Flat(b.store.contents))
    ensures b.gdb.refusals == old(b.gdb.refusals) ==> Flat(b.store.contents) == EffectAll(Flat(old(b.store.contents)), ops)
    ensures old(Checked(b.tree.View())) ==> Checked(b.tree.View())
  {
    hide Agrees, Sized, GdbAgreement.GdbAgrees, BreakStore.Valid, Step, Effect, Flat, WhileStopped, Checked;
    trace := [Flat(b.store.contents)];
    for i := 0 to |ops|
      invariant b.InStep() && b.state == Stopped && b.store.repr == old(b.store.repr)
      invariant Traces(trace, ops[..i], Flat(old(b.store.contents)), Flat(b.store.contents))
      invariant b.gdb.refusals >= old(b.gdb.refusals)
      invariant b.gdb.refusals == old(b.gdb.refusals) ==> Flat(b.store.contents) == EffectAll(Flat(old(b.store.contents)), ops[..i])
      invariant old(Checked(b.tree.View())) ==> Checked(b.tree.View())
    {
      assert ops[..i + 1][..i] == ops[..i];
      DoStopped(b, ops[i]);
      trace := trace + [Flat(b.store.contents)];
    }
    assert ops[..|ops|] == ops;
  }
}
