/**
 The checkboxes of the file rows, which bptree.c sets when all breakpoints of a file are
 enabled: every change of the view keeps them right but one.
 */
module BreakChecks {
  import opened BreakModel
  import opened BreakAgreement

  lemma KidSetAlike(kids: seq<KidRow>, j: nat, row: KidRow)
    requires j < |kids| && row.enabled == kids[j].enabled
    ensures AllEnabled(kids[j := row]) == AllEnabled(kids)
  {
    assert forall i | 0 <= i < |kids| :: kids[j := row][i].enabled == kids[i].enabled;
  }

  lemma KidInserted(kids: seq<KidRow>, p: nat, row: KidRow)
    requires p <= |kids|
    ensures AllEnabled(InsertAt(kids, p, row)) <==> AllEnabled(kids) && row.enabled
  {
    var kids' := InsertAt(kids, p, row);
    assert forall i | 0 <= i < |kids| :: kids[i] == kids'[if i < p then i else i + 1];
    assert kids'[p] == row;
  }

  /** One row's children are replaced; the other rows keep their checkboxes. */
  lemma KidsChecked(v: View, r: nat, kids: seq<KidRow>)
    requires Checked(v) && r in v.rows
    ensures AllEnabled(kids) == AllEnabled(v.rows[r].kids) ==> Checked(SetKids(v, r, kids))
    ensures Checked(CheckRow(SetKids(v, r, kids), r))
  {
    hide AllEnabled;
  }

  /** Overwriting a row without touching its state. */
  lemma RowChecked(v: View, it: Iter, row: KidRow)
    requires Checked(v)
    requires KidAt(v, it) >= 0 ==> row.enabled == v.rows[it.fileRow].kids[KidAt(v, it)].enabled
    ensures Checked(SetKid(v, it, row))
  {
    hide AllEnabled, Checked, KidAt;
    var j := KidAt(v, it);
    if j >= 0 {
      KidSetAlike(v.rows[it.fileRow].kids, j, row);
      KidsChecked(v, it.fileRow, v.rows[it.fileRow].kids[j := row]);
    }
  }

  lemma CellChecked(v: View, b: Break)
    requires Checked(v)
    ensures Checked(HitsCell(v, b)) && Checked(ConditionCell(v, b))
  {
    hide AllEnabled, Checked, KidAt, SetKid;
    var j := KidAt(v, b.iter);
    if j >= 0 {
      var row := v.rows[b.iter.fileRow].kids[j];
      RowChecked(v, b.iter, row.(hits := b.hits));
      RowChecked(v, b.iter, row.(condition := b.condition));
    }
  }

  lemma SwitchChecked(v: View, b: Break)
    requires Checked(v)
    ensures Checked(CheckRow(EnabledCell(v, b), b.iter.fileRow))
  {
    hide AllEnabled, Checked, KidAt;
    var r, j := b.iter.fileRow, KidAt(v, b.iter);
    if j >= 0 {
      KidsChecked(v, r, v.rows[r].kids[j := v.rows[r].kids[j].(enabled := b.enabled)]);
    } else if r in v.rows {
      KidsChecked(v, r, v.rows[r].kids);
      SetSameKids(v, r);
    }
  }

  lemma SetSameKids(v: View, r: nat)
    requires r in v.rows
    ensures SetKids(v, r, v.rows[r].kids) == v
  {
    assert v.rows[r := v.rows[r]] == v.rows;
  }

  lemma RemoveChecked(v: View, b: Break)
    requires Checked(v)
    ensures Checked(RemoveView(v, b))
  {
    hide AllEnabled, KidAt;
    var r, j := b.iter.fileRow, KidAt(v, b.iter);
    if j >= 0 {
      KidsChecked(v, r, Without(v.rows[r].kids, j));
    }
  }

  /** A row that is moved with its breakpoint. */
  lemma MoveChecked(s: Store, v: View, file: string, line: int, b: Break)
    requires Checked(v) && Linked(s, v) && Has(s, file, line)
    requires b.iter == s[file][line].iter && b.enabled == s[file][line].enabled
    ensures Checked(UpdateView(v, b))
  {
    hide AllEnabled, Checked;
    var j := RowExists(s, v, file, line);
    RowChecked(v, b.iter, RowOf(b));
  }

  /** The checkbox of a file, which is set when it has no row yet. */
  predicate Box(v: View, file: string)
    requires file in v.files ==> v.files[file] in v.rows
  {
    file in v.files ==> v.rows[v.files[file]].enabled
  }

  /**
   Adding a breakpoint does not bring the checkbox up to date: it is right afterwards exactly
   when the breakpoint is enabled or the checkbox was not set.
   */
  lemma AddChecked(v: View, b: Break)
    requires Checked(v) && RowsLinked(v)
    ensures b.file in v.files ==> v.files[b.file] in v.rows
    ensures Checked(AddView(v, b)) <==> b.enabled || !Box(v, b.file)
  {
    hide AllEnabled, InsertPos;
    var w := FileNode(v, b.file);
    var r := w.files[b.file];
    var kids := w.rows[r].kids;
    NodeChecked(v, b.file);
    KidInserted(kids, InsertPos(kids, b.line), RowOf(b).(id := w.next));
    SetKidsChecked(w, r, InsertAt(kids, InsertPos(kids, b.line), RowOf(b).(id := w.next)));
  }

  lemma NodeChecked(v: View, file: string)
    requires Checked(v) && RowsLinked(v)
    ensures file in v.files ==> v.files[file] in v.rows
    ensures var w := FileNode(v, file);
      Checked(w) && file in w.files && w.files[file] in w.rows && (w.rows[w.files[file]].enabled <==> Box(v, file))
  {
  }

  lemma SetKidsChecked(w: View, r: nat, kids: seq<KidRow>)
    requires Checked(w) && r in w.rows
    ensures Checked(SetKids(w, r, kids).(next := w.next + 1)) <==> w.rows[r].enabled == AllEnabled(kids)
  {
    hide AllEnabled;
    var w' := SetKids(w, r, kids).(next := w.next + 1);
    assert r in w'.rows;
  }

  /** When everything agrees, the checkbox tells whether all stored breakpoints of the file are enabled. */
  lemma BoxIs(s: Store, v: View, file: string)
    requires Agrees(s, v) && Checked(v)
    ensures file in v.files ==> v.files[file] in v.rows
    ensures Box(v, file) <==> forall l | Has(s, file, l) :: s[file][l].enabled
  {
    if file in v.files {
      var kids := v.rows[v.files[file]].kids;
      assert FileLinked(s, v, file);
      forall l | Has(s, file, l)
        ensures exists j :: 0 <= j < |kids| && kids[j].enabled == s[file][l].enabled
      {
        var j := RowExists(s, v, file, l);
      }
      forall j | 0 <= j < |kids|
        ensures Has(s, file, kids[j].line) && s[file][kids[j].line].enabled == kids[j].enabled
      {
        assert Shows(kids[j], s[file], v.files[file]);
      }
    }
  }
}
