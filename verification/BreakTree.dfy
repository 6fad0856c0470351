/**
 The breakpoints page of the debugger panel: bptree.c over a GtkTreeStore.
 */
module BreakTree {
  import opened BreakModel

  /** A `breakpoint` structure. */
  class Breakpoint {
    var file: string
    var line: int
    var condition: string
    var enabled: bool
    var hitscount: int
    var iter: Iter
    /** Whether the structure has been given back to the allocator. */
    var freed: bool

    constructor (file: string, line: int, condition: string, enabled: bool, hitscount: int)
      ensures Value() == Break(file, line, condition, enabled, hitscount, Iter(0, 0))
      ensures !freed
    {
      this.file, this.line, this.condition := file, line, condition;
      this.enabled, this.hitscount := enabled, hitscount;
      iter := Iter(0, 0);
      freed := false;
    }

    /** Freed memory holds anything. */
    method Scribble()
      modifies `file, `line, `condition, `enabled, `hitscount, `iter
    {
      file, line, condition, enabled, hitscount, iter := *, *, *, *, *, *;
    }

    function Value(): Break
      reads this
    {
      Break(file, line, condition, enabled, hitscount, iter)
    }
  }

  class BreakTree {
    /** Top-level rows in display order. */
    var order: seq<nat>
    /** The file rows with their children. */
    var rows: map<nat, FileRow>
    /** The hash from file names to row references. */
    var files: map<string, nat>
    /** The next unused row number. */
    var next: nat

    constructor ()
      ensures View() == BreakModel.View.View([], map[], map[], 0)
    {
      order, rows, files, next := [], map[], map[], 0;
    }

    function View(): View
      reads this
    {
      BreakModel.View.View(order, rows, files, next)
    }

    /** update_file_node: checks the file row if no child is disabled. */
    method UpdateFileNode(r: nat)
      modifies this
      ensures View() == CheckRow(old(View()), r)
    {
      if r in rows {
        var kids := rows[r].kids;
        var check, i := true, 0;
        while i < |kids|
          invariant 0 <= i <= |kids|
          invariant check && AllEnabled(kids[..i])
        {
          if !kids[i].enabled {
            check := false;
            break;
          }
          i := i + 1;
        }
        assert check == AllEnabled(kids) by {
          if check { assert kids[..i] == kids; }
        }
        rows := rows[r := rows[r].(enabled := check)];
      }
    }

    method SetCells(it: Iter, row: KidRow)
      modifies this
      ensures View() == SetKid(old(View()), it, row)
    {
      var j := KidAt(View(), it);
      if j >= 0 {
        rows := rows[it.fileRow := rows[it.fileRow].(kids := rows[it.fileRow].kids[j := row])];
      }
    }

    /** bptree_set_enabled */
    method SetEnabled(bp: Breakpoint)
      modifies this
      ensures View() == CheckRow(EnabledCell(old(View()), bp.Value()), bp.iter.fileRow)
    {
      var j := KidAt(View(), bp.iter);
      if j >= 0 {
        SetCells(bp.iter, rows[bp.iter.fileRow].kids[j].(enabled := bp.enabled));
      }
      UpdateFileNode(bp.iter.fileRow);
    }

    /** bptree_set_hitscount */
    method SetHitscount(bp: Breakpoint)
      modifies this
      ensures View() == HitsCell(old(View()), bp.Value())
    {
      var j := KidAt(View(), bp.iter);
      if j >= 0 {
        SetCells(bp.iter, rows[bp.iter.fileRow].kids[j].(hits := bp.hitscount));
      }
    }

    /** bptree_set_condition */
    method SetCondition(bp: Breakpoint)
      modifies this
      ensures View() == ConditionCell(old(View()), bp.Value())
    {
      var j := KidAt(View(), bp.iter);
      if j >= 0 {
        SetCells(bp.iter, rows[bp.iter.fileRow].kids[j].(condition := bp.condition));
      }
    }

    /** bptree_get_condition */
    method GetCondition(bp: Breakpoint) returns (condition: string)
      requires KidAt(View(), bp.iter) >= 0
      ensures condition == rows[bp.iter.fileRow].kids[KidAt(View(), bp.iter)].condition
    {
      condition := rows[bp.iter.fileRow].kids[KidAt(View(), bp.iter)].condition;
    }

    /** bptree_update_breakpoint */
    method UpdateBreakpoint(bp: Breakpoint)
      modifies this
      ensures View() == UpdateView(old(View()), bp.Value())
    {
      SetCells(bp.iter, RowOf(bp.Value()));
    }

    /** The row before which a breakpoint of line `line` is inserted. */
    method FindSibling(kids: seq<KidRow>, line: int) returns (p: nat)
      ensures p == InsertPos(kids, line)
    {
      p := 0;
      while p < |kids| && kids[p].line <= line
        invariant p <= |kids|
        invariant InsertPos(kids, line) == p + InsertPos(kids[p..], line)
      {
        assert kids[p..][1..] == kids[p + 1..];
        p := p + 1;
      }
    }

    /** bptree_add_breakpoint */
    method AddBreakpoint(bp: Breakpoint)
      requires forall f | f in files :: files[f] in rows
      modifies this, bp`iter
      ensures bp.iter == NewIter(old(View()), bp.file)
      ensures View() == AddView(old(View()), bp.Value())
    {
      if bp.file !in files {
        order := [next] + order;
        rows := rows[next := FileRow(bp.file, true, [])];
        files := files[bp.file := next];
        next := next + 1;
      }
      assert View() == FileNode(old(View()), bp.file);
      var r := files[bp.file];
      var kids := rows[r].kids;
      var p := FindSibling(kids, bp.line);
      bp.iter := Iter(r, next);
      rows := rows[r := rows[r].(kids := InsertAt(kids, p, RowOf(bp.Value())))];
      next := next + 1;
    }

    /** bptree_remove_breakpoint */
    method RemoveBreakpoint(bp: Breakpoint)
      modifies this
      ensures View() == RemoveView(old(View()), bp.Value())
    {
      var r, j := bp.iter.fileRow, KidAt(View(), bp.iter);
      if j >= 0 {
        var kids := Without(rows[r].kids, j);
        if kids == [] {
          files := files - {bp.file};
          order := DropRow(order, r);
          rows := rows - {r};
        } else {
          rows := rows[r := rows[r].(kids := kids)];
          UpdateFileNode(r);
        }
      }
    }

    /** bptree_update_file_nodes */
    method UpdateFileNodes()
      requires OrderLinked(View())
      modifies this
      ensures View() == CheckAll(old(View()))
      ensures Checked(View())
    {
      hide AllEnabled, OrderLinked, Checked, CheckRow;
      ghost var v := View();
      CheckAllChecks(v);
      var i := 0;
      while i < |order|
        invariant order == v.order && 0 <= i <= |v.order|
        invariant View() == CheckFirst(v, i)
      {
        UpdateFileNode(order[i]);
        i := i + 1;
        assert View() == CheckFirst(v, i);
        CheckFirstSame(v, i);
      }
    }
  }

  /** The view after the checkboxes of the first `n` file rows were brought up to date. */
  function CheckFirst(v: View, n: nat): View
    requires n <= |v.order|
  {
    if n == 0 then v else CheckRow(CheckFirst(v, n - 1), v.order[n - 1])
  }

  function CheckAll(v: View): View {
    CheckFirst(v, |v.order|)
  }

  /** Only checkboxes change, and those of the visited rows are right. */
  lemma {:induction false} CheckFirstSame(v: View, n: nat)
    requires n <= |v.order|
    ensures var w := CheckFirst(v, n);
      && w.order == v.order && w.files == v.files && w.next == v.next && w.rows.Keys == v.rows.Keys
      && (forall r | r in w.rows :: w.rows[r].path == v.rows[r].path && w.rows[r].kids == v.rows[r].kids)
      && (forall r | r in v.order[..n] && r in w.rows :: w.rows[r].enabled == AllEnabled(w.rows[r].kids))
  {
    hide AllEnabled;
    if n > 0 {
      CheckFirstSame(v, n - 1);
      assert v.order[..n] == v.order[..n - 1] + [v.order[n - 1]];
    }
  }

  lemma CheckAllChecks(v: View)
    requires OrderLinked(v)
    ensures Checked(CheckAll(v)) && OrderLinked(CheckAll(v))
  {
    CheckFirstSame(v, |v.order|);
    assert v.order[..|v.order|] == v.order;
    forall r | r in v.rows
      ensures r in v.order
    {
      assert multiset(v.order)[r] == 1;
    }
  }
}
