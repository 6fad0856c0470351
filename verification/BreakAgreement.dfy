/**
 How the single view operations of bptree.c preserve the agreement between the
 breakpoint store and the tree view.
 */
module BreakAgreement {
  import opened BreakModel

  /** The place of the row with a given line. */
  lemma RowIndex(kids: seq<KidRow>, tree: LineTree, fileRow: nat, next: nat, line: int) returns (j: nat)
    requires KidsLinked(kids, tree, fileRow, next) && line in tree
    ensures j < |kids| && kids[j] == RowOf(tree[line]) && tree[line].iter == Iter(fileRow, kids[j].id)
    ensures IndexOf(kids, tree[line].iter.kid) == j
  {
    assert HasRow(kids, line);
    j :| 0 <= j < |kids| && kids[j].line == line;
    assert Shows(kids[j], tree, fileRow);
    var i := IndexOf(kids, kids[j].id);
    assert kids[i].id == kids[j].id;
  }

  /** The child row of a stored breakpoint. */
  lemma RowExists(s: Store, v: View, file: string, line: int) returns (j: nat)
    requires Linked(s, v) && Has(s, file, line)
    ensures file in v.files && s[file][line].iter.fileRow == v.files[file]
    ensures j < |v.rows[v.files[file]].kids|
    ensures v.rows[v.files[file]].kids[j] == RowOf(s[file][line])
    ensures IndexOf(v.rows[v.files[file]].kids, s[file][line].iter.kid) == j
    ensures s[file][line].iter.kid > 0
  {
    assert s[file] != map[];
    assert FileLinked(s, v, file);
    j := RowIndex(v.rows[v.files[file]].kids, s[file], v.files[file], v.next, line);
  }

  /** Different rows have different lines. */
  lemma DistinctLines(kids: seq<KidRow>, tree: LineTree, fileRow: nat, i: nat, j: nat)
    requires DistinctIds(kids) && AllShow(kids, tree, fileRow)
    requires i < |kids| && j < |kids| && i != j
    ensures kids[i].line != kids[j].line
  {
    assert Shows(kids[i], tree, fileRow) && Shows(kids[j], tree, fileRow);
    assert kids[i].id != kids[j].id;
  }

  // ----- Updating

  /** Overwriting one row after its breakpoint changed, possibly to a free line. */
  lemma UpdateKids(kids: seq<KidRow>, tree: LineTree, fileRow: nat, next: nat, j: nat, b: Break)
    requires KidsLinked(kids, tree, fileRow, next)
    requires j < |kids| && b.iter == Iter(fileRow, kids[j].id)
    requires b.line == kids[j].line || b.line !in tree
    ensures KidsLinked(kids[j := RowOf(b)], (tree - {kids[j].line})[b.line := b], fileRow, next)
    ensures Ascending(kids) && b.line == kids[j].line ==> Ascending(kids[j := RowOf(b)])
  {
    var kids' := kids[j := RowOf(b)];
    var tree' := (tree - {kids[j].line})[b.line := b];
    forall i | 0 <= i < |kids'|
      ensures Shows(kids'[i], tree', fileRow)
    {
      if i != j {
        DistinctLines(kids, tree, fileRow, i, j);
        assert Shows(kids[i], tree, fileRow);
      }
    }
    forall l | l in tree'
      ensures HasRow(kids', l)
    {
      if l == b.line {
        assert kids'[j].line == l;
      } else {
        assert HasRow(kids, l);
        var i :| 0 <= i < |kids| && kids[i].line == l;
        assert kids'[i].line == l;
      }
    }
  }

  lemma MoreIds(kids: seq<KidRow>, tree: LineTree, fileRow: nat, next: nat, next': nat)
    requires KidsLinked(kids, tree, fileRow, next) && next <= next'
    ensures KidsLinked(kids, tree, fileRow, next')
  {
  }

  lemma SetKidsRows(v: View, r: nat, kids: seq<KidRow>, next: nat)
    requires RowsLinked(v) && OrderLinked(v) && r in v.rows && v.next <= next
    ensures var v' := SetKids(v, r, kids).(next := next);
      RowsLinked(v') && OrderLinked(v') && (Sorted(v) && Ascending(kids) ==> Sorted(v'))
  {
  }

  lemma SetKidsOtherFile(s: Store, v: View, file: string, tree: LineTree, kids: seq<KidRow>, next: nat, f: string)
    requires Linked(s, v) && file in v.files && v.next <= next
    requires f in v.files && f != file
    ensures FileLinked(s[file := tree], SetKids(v, v.files[file], kids).(next := next), f)
  {
    hide KidsLinked;
    assert v.rows[v.files[f]].path == f && v.rows[v.files[file]].path == file;
    assert FileLinked(s, v, f);
    MoreIds(v.rows[v.files[f]].kids, s[f], v.files[f], v.next, next);
  }

  /** Replacing the children of one file row, perhaps with new row numbers, leaves the other files linked. */
  lemma SetKidsLinked(s: Store, v: View, file: string, tree: LineTree, kids: seq<KidRow>, next: nat)
    requires Linked(s, v) && file in v.files && tree != map[] && v.next <= next
    requires TreeKeyed(tree, file)
    requires KidsLinked(kids, tree, v.files[file], next)
    ensures Linked(s[file := tree], SetKids(v, v.files[file], kids).(next := next))
    ensures Sorted(v) && Ascending(kids) ==> Sorted(SetKids(v, v.files[file], kids))
  {
    hide KidsLinked, OrderLinked, TreeKeyed, Ascending;
    SetKidsRows(v, v.files[file], kids, next);
    forall f | f in v.files && f != file
      ensures FileLinked(s[file := tree], SetKids(v, v.files[file], kids).(next := next), f)
    {
      SetKidsOtherFile(s, v, file, tree, kids, next, f);
    }
  }

  lemma UpdateLinked(s: Store, v: View, file: string, line: int, b: Break)
    requires Linked(s, v) && Has(s, file, line)
    requires b.file == file && b.iter == s[file][line].iter
    requires b.line == line || b.line !in s[file]
    ensures Linked(Moved(s, file, line, b), UpdateView(v, b))
    ensures b.line == line && Sorted(v) ==> Sorted(UpdateView(v, b))
  {
    hide KidsLinked, OrderLinked, Ascending;
    var j := RowExists(s, v, file, line);
    var r := v.files[file];
    var tree := (s[file] - {line})[b.line := b];
    assert FileLinked(s, v, file);
    UpdateKids(v.rows[r].kids, s[file], r, v.next, j, b);
    assert b.line in tree;
    SetKidsLinked(s, v, file, tree, v.rows[r].kids[j := RowOf(b)], v.next);
  }

  /** Putting a breakpoint back under its own line is the plain overwrite. */
  lemma MovedIsSet(s: Store, file: string, line: int, b: Break)
    requires Has(s, file, line) && b.line == line
    ensures Moved(s, file, line, b) == Set(s, file, line, b)
  {
    assert (s[file] - {line})[line := b] == s[file][line := b];
  }

  /** Changing fields of a stored breakpoint, but not its place, and then its whole row. */
  lemma EditAgrees(s: Store, v: View, file: string, line: int, b: Break)
    requires Agrees(s, v) && Has(s, file, line)
    requires b.file == file && b.line == line && b.iter == s[file][line].iter
    ensures Agrees(Set(s, file, line, b), UpdateView(v, b))
  {
    UpdateLinked(s, v, file, line, b);
    MovedIsSet(s, file, line, b);
  }

  /** When the other cells are already right, one cell is enough. */
  lemma OneCell(s: Store, v: View, file: string, line: int, b: Break)
    requires Linked(s, v) && Has(s, file, line)
    ensures s[file][line].(enabled := b.enabled) == b ==> EnabledCell(v, b) == UpdateView(v, b)
    ensures s[file][line].(hits := b.hits) == b ==> HitsCell(v, b) == UpdateView(v, b)
    ensures s[file][line].(condition := b.condition) == b ==> ConditionCell(v, b) == UpdateView(v, b)
  {
    var j := RowExists(s, v, file, line);
  }

  lemma SwitchAgrees(s: Store, v: View, file: string, line: int, b: Break)
    requires Agrees(s, v) && Has(s, file, line)
    requires s[file][line].(enabled := b.enabled) == b
    ensures Agrees(Set(s, file, line, b), CheckRow(EnabledCell(v, b), b.iter.fileRow))
  {
    assert b.file == file && b.line == line by { assert TreeKeyed(s[file], file); }
    hide KidsLinked, OrderLinked, Ascending;
    OneCell(s, v, file, line, b);
    EditAgrees(s, v, file, line, b);
    CheckRowAgrees(Set(s, file, line, b), UpdateView(v, b), b.iter.fileRow);
  }

  /** Hit count and condition have one cell each. */
  lemma CellAgrees(s: Store, v: View, file: string, line: int, b: Break)
    requires Agrees(s, v) && Has(s, file, line)
    ensures s[file][line].(hits := b.hits) == b ==> Agrees(Set(s, file, line, b), HitsCell(v, b))
    ensures s[file][line].(condition := b.condition) == b ==> Agrees(Set(s, file, line, b), ConditionCell(v, b))
  {
    assert TreeKeyed(s[file], file);
    hide Linked, Sorted;
    if s[file][line].(hits := b.hits) == b || s[file][line].(condition := b.condition) == b {
      OneCell(s, v, file, line, b);
      EditAgrees(s, v, file, line, b);
    }
  }

  lemma RemoveAgrees(s: Store, v: View, file: string, line: int)
    requires Agrees(s, v) && Has(s, file, line)
    ensures Agrees(Del(s, file, line), RemoveView(v, s[file][line]))
  {
    RemoveLinked(s, v, file, line);
  }

  /** A stored breakpoint that was never given a row. */
  lemma NoRowDisagrees(s: Store, v: View, b: Break)
    requires b.iter.kid == 0
    ensures !Agrees(Put(s, b), v)
  {
    hide Keyed, Put;
    if Agrees(Put(s, b), v) {
      PutHas(s, b);
      var j := RowExists(Put(s, b), v, b.file, b.line);
    }
  }

  lemma PutHas(s: Store, b: Break)
    ensures Has(Put(s, b), b.file, b.line) && Put(s, b)[b.file][b.line] == b
  {
  }

  /** A row with a stale hit count. */
  lemma StaleHitsDisagree(s: Store, v: View, file: string, line: int, b: Break)
    requires Agrees(s, v) && Has(s, file, line)
    requires b == s[file][line].(hits := b.hits) && b != s[file][line]
    ensures !Agrees(Set(s, file, line, b), v)
  {
    var j := RowExists(s, v, file, line);
    var s' := Set(s, file, line, b);
    assert TreeKeyed(s[file], file);
    if Agrees(s', v) {
      var j' := RowExists(s', v, file, line);
    }
  }

  lemma CheckRowLinked(v: View, r: nat)
    requires RowsLinked(v) && OrderLinked(v)
    ensures RowsLinked(CheckRow(v, r)) && OrderLinked(CheckRow(v, r))
  {
    hide AllEnabled;
  }

  lemma CheckRowAgrees(s: Store, v: View, r: nat)
    requires Linked(s, v)
    ensures Linked(s, CheckRow(v, r))
    ensures Sorted(v) ==> Sorted(CheckRow(v, r))
  {
    hide KidsLinked, Ascending, OrderLinked;
    if r in v.rows {
      var v' := CheckRow(v, r);
      CheckRowLinked(v, r);
      forall f | f in v'.files
        ensures FileLinked(s, v', f)
      {
        assert FileLinked(s, v, f);
      }
    }
  }

  // ----- Adding

  lemma AddKid(kids: seq<KidRow>, tree: LineTree, fileRow: nat, next: nat, b: Break)
    requires KidsLinked(kids, tree, fileRow, next) && Ascending(kids)
    requires b.iter == Iter(fileRow, next) && b.line !in tree && fileRow < next
    ensures KidsLinked(InsertAt(kids, InsertPos(kids, b.line), RowOf(b)), tree[b.line := b], fileRow, next + 1)
  {
    hide DistinctIds, IdsBelow, AllShow, AllShown;
    var p := InsertPos(kids, b.line);
    AddKidDistinct(kids, next, p, RowOf(b));
    AddKidShow(kids, tree, fileRow, p, b);
    AddKidShown(kids, tree, p, b);
  }

  lemma AddKidShow(kids: seq<KidRow>, tree: LineTree, fileRow: nat, p: nat, b: Break)
    requires AllShow(kids, tree, fileRow) && p <= |kids|
    requires b.iter.fileRow == fileRow && b.line !in tree
    ensures AllShow(InsertAt(kids, p, RowOf(b)), tree[b.line := b], fileRow)
  {
    var kids', tree' := InsertAt(kids, p, RowOf(b)), tree[b.line := b];
    forall i | 0 <= i < |kids'|
      ensures Shows(kids'[i], tree', fileRow)
    {
      if i < p { assert Shows(kids[i], tree, fileRow); }
      if i > p { assert Shows(kids[i - 1], tree, fileRow); }
    }
  }

  lemma AddKidShown(kids: seq<KidRow>, tree: LineTree, p: nat, b: Break)
    requires AllShown(kids, tree) && p <= |kids|
    ensures AllShown(InsertAt(kids, p, RowOf(b)), tree[b.line := b])
  {
    var kids', tree' := InsertAt(kids, p, RowOf(b)), tree[b.line := b];
    forall l | l in tree'
      ensures HasRow(kids', l)
    {
      if l == b.line {
        assert kids'[p].line == l;
      } else {
        assert HasRow(kids, l);
        var i :| 0 <= i < |kids| && kids[i].line == l;
        assert kids'[if i < p then i else i + 1].line == l;
      }
    }
  }

  lemma AddKidDistinct(kids: seq<KidRow>, next: nat, p: nat, row: KidRow)
    requires DistinctIds(kids) && IdsBelow(kids, next) && row.id == next > 0 && p <= |kids|
    ensures DistinctIds(InsertAt(kids, p, row)) && IdsBelow(InsertAt(kids, p, row), next + 1)
  {
    var kids' := InsertAt(kids, p, row);
    forall i, j | 0 <= i < j < |kids'|
      ensures kids'[i].id != kids'[j].id
    {
      var a, c := if i > p then i - 1 else i, if j > p then j - 1 else j;
      if i == p {
        assert kids'[j] == kids[c] && kids[c].id < next;
      } else if j == p {
        assert kids'[i] == kids[a] && kids[a].id < next;
      } else {
        assert kids'[i] == kids[a] && kids'[j] == kids[c] && a < c;
      }
    }
  }

  lemma JoinedAscending(a: seq<KidRow>, b: seq<KidRow>)
    requires Ascending(a) && Ascending(b)
    requires a != [] && b != [] ==> a[|a| - 1].line < b[0].line
    ensures Ascending(a + b)
  {
    forall i, j | 0 <= i < j < |a + b|
      ensures (a + b)[i].line < (a + b)[j].line
    {
      if i < |a| <= j {
        assert a[i].line <= a[|a| - 1].line < b[0].line <= b[j - |a|].line;
      }
    }
  }

  lemma AddKidAscending(kids: seq<KidRow>, tree: LineTree, fileRow: nat, row: KidRow)
    requires AllShow(kids, tree, fileRow) && Ascending(kids) && row.line !in tree
    ensures Ascending(InsertAt(kids, InsertPos(kids, row.line), row))
  {
    var p := InsertPos(kids, row.line);
    if p > 0 { assert Shows(kids[p - 1], tree, fileRow); }
    JoinedAscending(kids[..p], [row]);
    JoinedAscending(kids[..p] + [row], kids[p..]);
  }

  /** What adding does to a view that has a row for the file. */
  function NextView(v: View, b: Break): View
    requires b.file in v.files && v.files[b.file] in v.rows
  {
    var kids := v.rows[v.files[b.file]].kids;
    SetKids(v, v.files[b.file], InsertAt(kids, InsertPos(kids, b.line), RowOf(b))).(next := v.next + 1)
  }

  lemma AddViewToFile(v: View, b: Break)
    requires b.file in v.files && v.files[b.file] in v.rows && b.iter == NewIter(v, b.file)
    ensures AddView(v, b) == NextView(v, b)
  {
  }

  lemma AddToKids(s: Store, v: View, b: Break)
    requires Agrees(s, v) && b.file in v.files && b.line !in s[b.file]
    requires b.iter == NewIter(v, b.file)
    ensures var kids := v.rows[v.files[b.file]].kids;
      var kids' := InsertAt(kids, InsertPos(kids, b.line), RowOf(b));
      KidsLinked(kids', s[b.file][b.line := b], v.files[b.file], v.next + 1) && Ascending(kids')
  {
    var r := v.files[b.file];
    assert FileLinked(s, v, b.file);
    AddKid(v.rows[r].kids, s[b.file], r, v.next, b);
    AddKidAscending(v.rows[r].kids, s[b.file], r, RowOf(b));
  }

  lemma AddLine(s: Store, v: View, b: Break, kids': seq<KidRow>)
    requires Agrees(s, v) && b.file in v.files
    requires KidsLinked(kids', s[b.file][b.line := b], v.files[b.file], v.next + 1) && Ascending(kids')
    ensures Agrees(s[b.file := s[b.file][b.line := b]], SetKids(v, v.files[b.file], kids').(next := v.next + 1))
  {
    hide KidsLinked, OrderLinked, Ascending;
    var tree := s[b.file][b.line := b];
    assert b.line in tree && TreeKeyed(tree, b.file);
    SetKidsLinked(s, v, b.file, tree, kids', v.next + 1);
  }

  /** Adding a breakpoint to a file that has a row keeps the agreement. */
  lemma AddToFile(s: Store, v: View, b: Break)
    requires Agrees(s, v) && b.file in v.files && b.line !in s[b.file]
    requires b.iter == NewIter(v, b.file)
    ensures Agrees(s[b.file := s[b.file][b.line := b]], NextView(v, b))
  {
    hide KidsLinked, OrderLinked, Ascending;
    AddToKids(s, v, b);
    var kids := v.rows[v.files[b.file]].kids;
    AddLine(s, v, b, InsertAt(kids, InsertPos(kids, b.line), RowOf(b)));
  }

  /** A file row with a single child. */
  lemma SingleKid(b: Break)
    requires b.iter.kid > 0
    ensures KidsLinked([RowOf(b)], map[b.line := b], b.iter.fileRow, b.iter.kid + 1)
  {
    assert [RowOf(b)][0].line == b.line;
  }

  /** The view after adding the first breakpoint of a file. */
  function FirstView(v: View, b: Break): View {
    View([v.next] + v.order, v.rows[v.next := FileRow(b.file, true, [RowOf(b)])], v.files[b.file := v.next], v.next + 2)
  }

  lemma AddViewNewFile(v: View, b: Break)
    requires b.file !in v.files && b.iter == NewIter(v, b.file)
    ensures AddView(v, b) == FirstView(v, b)
  {
    var w := FileNode(v, b.file);
    assert InsertAt([], 0, RowOf(b)) == [RowOf(b)];
    assert w.rows[v.next := FileRow(b.file, true, [RowOf(b)])] == FirstView(v, b).rows;
  }

  lemma FirstViewRows(s: Store, v: View, b: Break)
    requires Linked(s, v) && b.file !in v.files
    ensures RowsLinked(FirstView(v, b)) && OrderLinked(FirstView(v, b))
  {
    assert v.next !in v.rows;
  }

  lemma FirstOtherFile(s: Store, v: View, b: Break, f: string)
    requires Linked(s, v) && b.file !in v.files && f in v.files
    ensures FileLinked(s[b.file := map[b.line := b]], FirstView(v, b), f)
  {
    hide KidsLinked, OrderLinked;
    assert FileLinked(s, v, f);
    MoreIds(v.rows[v.files[f]].kids, s[f], v.files[f], v.next, v.next + 2);
  }

  lemma KeyedFirst(s: Store, b: Break)
    requires Keyed(s)
    ensures Keyed(s[b.file := map[b.line := b]])
  {
  }

  lemma FirstLinked(s: Store, v: View, b: Break)
    requires Linked(s, v) && b.file !in v.files
    requires b.iter == NewIter(v, b.file)
    ensures Linked(s[b.file := map[b.line := b]], FirstView(v, b))
  {
    hide KidsLinked, OrderLinked, Keyed, RowsLinked;
    KeyedFirst(s, b);
    FirstViewRows(s, v, b);
    SingleKid(b);
    var tree: LineTree := map[b.line := b];
    assert b.line in tree;
    forall f | f in v.files
      ensures FileLinked(s[b.file := tree], FirstView(v, b), f)
    {
      FirstOtherFile(s, v, b, f);
    }
  }

  /** Adding the first breakpoint of a file keeps the agreement. */
  lemma AddToNewFile(s: Store, v: View, b: Break)
    requires Agrees(s, v) && b.file !in v.files
    requires b.iter == NewIter(v, b.file)
    ensures Agrees(Put(s, b), AddView(v, b))
  {
    AddViewNewFile(v, b);
    FirstLinked(s, v, b);
    assert Put(s, b) == s[b.file := map[b.line := b]] by {
      if b.file in s { assert s[b.file] == map[]; }
    }
    hide Linked;
    assert Sorted(FirstView(v, b));
  }

  lemma AddAgrees(s: Store, v: View, b: Break)
    requires Agrees(s, v) && !Has(s, b.file, b.line)
    requires b.iter == NewIter(v, b.file)
    ensures Agrees(Put(s, b), AddView(v, b))
  {
    if b.file in v.files {
      AddToFile(s, v, b);
      AddViewToFile(v, b);
    } else {
      AddToNewFile(s, v, b);
    }
  }

  // ----- More rows than breakpoints

  /** A file has more rows than breakpoints. */
  ghost predicate Overfull(s: Store, v: View) {
    exists f :: FileOverfull(s, v, f)
  }

  ghost predicate FileOverfull(s: Store, v: View, f: string) {
    f in s && f in v.files && v.files[f] in v.rows && |v.rows[v.files[f]].kids| > |s[f]|
  }

  function LinesOf(kids: seq<KidRow>): (lines: set<int>)
    ensures forall l :: l in lines <==> exists i :: 0 <= i < |kids| && kids[i].line == l
  {
    set i | 0 <= i < |kids| :: kids[i].line
  }

  lemma {:induction false} CountLines(kids: seq<KidRow>)
    requires forall i, j | 0 <= i < j < |kids| :: kids[i].line != kids[j].line
    ensures |LinesOf(kids)| == |kids|
  {
    if kids != [] {
      var n := |kids| - 1;
      CountLines(kids[..n]);
      assert LinesOf(kids) == LinesOf(kids[..n]) + {kids[n].line};
    }
  }

  /** Linked rows are as many as the file's breakpoints. */
  lemma LinkedCount(kids: seq<KidRow>, tree: LineTree, fileRow: nat, next: nat)
    requires KidsLinked(kids, tree, fileRow, next)
    ensures |kids| == |tree|
  {
    forall i, j | 0 <= i < j < |kids|
      ensures kids[i].line != kids[j].line
    {
      DistinctLines(kids, tree, fileRow, i, j);
    }
    CountLines(kids);
    forall l
      ensures l in LinesOf(kids) <==> l in tree
    {
      if l in tree { assert HasRow(kids, l); }
      if l in LinesOf(kids) {
        var i :| 0 <= i < |kids| && kids[i].line == l;
        assert Shows(kids[i], tree, fileRow);
      }
    }
    assert LinesOf(kids) == tree.Keys;
  }

  lemma OverfullDisagrees(s: Store, v: View)
    requires Overfull(s, v)
    ensures !Agrees(s, v)
  {
    hide KidsLinked;
    if Agrees(s, v) {
      var f :| FileOverfull(s, v, f);
      assert FileLinked(s, v, f);
      LinkedCount(v.rows[v.files[f]].kids, s[f], v.files[f], v.next);
    }
  }

  /** Adding a breakpoint adds a row to its file and changes no other file. */
  lemma AddRows(v: View, b: Break)
    requires RowsLinked(v) && OrderLinked(v)
    ensures RowsLinked(AddView(v, b)) && OrderLinked(AddView(v, b))
    ensures var v' := AddView(v, b);
      && b.file in v'.files && v'.files[b.file] in v'.rows
      && |v'.rows[v'.files[b.file]].kids| == (if b.file in v.files then |v.rows[v.files[b.file]].kids| else 0) + 1
      && forall f | f in v.files && f != b.file ::
        f in v'.files && v'.files[f] == v.files[f] && v'.files[f] in v'.rows && v'.rows[v'.files[f]] == v.rows[v.files[f]]
  {
    hide RowsLinked, OrderLinked, SetKids, InsertPos, FileNode, RowOf;
    var w := FileNode(v, b.file);
    FileRows(v);
    NodeLinked(v, b.file);
    var kids := w.rows[w.files[b.file]].kids;
    KidsKeepRows(w, w.files[b.file], InsertAt(kids, InsertPos(kids, b.line), RowOf(b).(id := w.next)));
    forall f | f in v.files && f != b.file
      ensures var v' := AddView(v, b);
        f in v'.files && v'.files[f] == v.files[f] && v'.files[f] in v'.rows && v'.rows[v'.files[f]] == v.rows[v.files[f]]
    {
      OtherRow(v, w, b.file, f);
    }
  }

  lemma FileRows(v: View)
    requires RowsLinked(v)
    ensures forall f | f in v.files :: v.files[f] in v.rows
  {
  }

  lemma OtherRow(v: View, w: View, file: string, f: string)
    requires RowsLinked(v) && w == FileNode(v, file) && RowsLinked(w) && f in v.files && f != file
    ensures f in w.files && w.files[f] == v.files[f] && w.files[f] in w.rows && w.files[f] != w.files[file]
    ensures v.files[f] in v.rows && w.rows[w.files[f]] == v.rows[v.files[f]]
  {
  }

  lemma KidsKeepRows(w: View, r: nat, kids: seq<KidRow>)
    requires RowsLinked(w) && OrderLinked(w) && r in w.rows
    ensures var v := SetKids(w, r, kids).(next := w.next + 1);
      && RowsLinked(v) && OrderLinked(v) && v.files == w.files && r in v.rows && v.rows[r].kids == kids
      && forall r' | r' in w.rows && r' != r :: r' in v.rows && v.rows[r'] == w.rows[r']
  {
  }

  lemma NodeLinked(v: View, file: string)
    requires RowsLinked(v) && OrderLinked(v)
    ensures file in v.files ==> v.files[file] in v.rows
    ensures var w := FileNode(v, file);
      && RowsLinked(w) && OrderLinked(w) && file in w.files && w.files[file] in w.rows
      && w.rows[w.files[file]].kids == if file in v.files then v.rows[v.files[file]].kids else []
  {
    if file !in v.files {
      var w := FileNode(v, file);
      assert v.next !in v.rows;
      assert multiset(w.order) == multiset{v.next} + multiset(v.order);
    }
  }

  /** Further breakpoints do not make up for a row too many. */
  lemma AddKeepsOverfull(s: Store, v: View, b: Break)
    requires Overfull(s, v) && RowsLinked(v) && OrderLinked(v)
    ensures Overfull(Put(s, b), AddView(v, b))
  {
    hide AddView, OrderLinked;
    AddRows(v, b);
    var f :| FileOverfull(s, v, f);
    assert FileOverfull(Put(s, b), AddView(v, b), f);
  }

  /** A second breakpoint on a line leaves a row too many. */
  lemma AddTwiceOverfull(s: Store, v: View, b: Break)
    requires Agrees(s, v) && Has(s, b.file, b.line)
    ensures Overfull(Put(s, b), AddView(v, b))
  {
    hide AddView, KidsLinked, OrderLinked;
    AddRows(v, b);
    assert b.file in v.files && FileLinked(s, v, b.file);
    LinkedCount(v.rows[v.files[b.file]].kids, s[b.file], v.files[b.file], v.next);
    assert s[b.file][b.line := b].Keys == s[b.file].Keys;
    assert FileOverfull(Put(s, b), AddView(v, b), b.file);
  }

  /** On a line that already has a breakpoint, the old row stays behind: agreement is lost. */
  lemma AddTwiceDisagrees(s: Store, v: View, b: Break)
    requires Agrees(s, v) && Has(s, b.file, b.line)
    ensures !Agrees(Put(s, b), AddView(v, b))
  {
    hide KidsLinked, AddView, Overfull, Put;
    AddTwiceOverfull(s, v, b);
    OverfullDisagrees(Put(s, b), AddView(v, b));
  }

  // ----- Removing

  lemma RemoveKid(kids: seq<KidRow>, tree: LineTree, fileRow: nat, next: nat, j: nat)
    requires KidsLinked(kids, tree, fileRow, next) && j < |kids|
    ensures KidsLinked(Without(kids, j), tree - {kids[j].line}, fileRow, next)
    ensures Without(kids, j) == [] <==> tree - {kids[j].line} == map[]
  {
    RemoveKidShow(kids, tree, fileRow, j);
    RemoveKidShown(kids, tree, j);
    RemoveKidDistinct(kids, j);
    var kids', tree' := Without(kids, j), tree - {kids[j].line};
    if kids' != [] {
      assert Shows(kids'[0], tree', fileRow);
    } else {
      assert forall l :: l !in tree';
    }
  }

  lemma RemoveKidShow(kids: seq<KidRow>, tree: LineTree, fileRow: nat, j: nat)
    requires DistinctIds(kids) && AllShow(kids, tree, fileRow) && j < |kids|
    ensures AllShow(Without(kids, j), tree - {kids[j].line}, fileRow)
  {
    var kids', tree' := Without(kids, j), tree - {kids[j].line};
    forall i | 0 <= i < |kids'|
      ensures Shows(kids'[i], tree', fileRow)
    {
      var k := if i < j then i else i + 1;
      DistinctLines(kids, tree, fileRow, k, j);
      assert kids'[i] == kids[k] && Shows(kids[k], tree, fileRow);
    }
  }

  lemma RemoveKidShown(kids: seq<KidRow>, tree: LineTree, j: nat)
    requires AllShown(kids, tree) && j < |kids|
    ensures AllShown(Without(kids, j), tree - {kids[j].line})
  {
    var kids', tree' := Without(kids, j), tree - {kids[j].line};
    forall l | l in tree'
      ensures HasRow(kids', l)
    {
      assert HasRow(kids, l);
      var i :| 0 <= i < |kids| && kids[i].line == l;
      assert kids'[if i < j then i else i - 1].line == l;
    }
  }

  lemma RemoveKidDistinct(kids: seq<KidRow>, j: nat)
    requires j < |kids|
    ensures DistinctIds(kids) ==> DistinctIds(Without(kids, j))
    ensures Ascending(kids) ==> Ascending(Without(kids, j))
    ensures forall next | IdsBelow(kids, next) :: IdsBelow(Without(kids, j), next)
  {
    var kids' := Without(kids, j);
    forall a, c | 0 <= a < c < |kids'|
      ensures DistinctIds(kids) ==> kids'[a].id != kids'[c].id
      ensures Ascending(kids) ==> kids'[a].line < kids'[c].line
    {
      assert kids'[a] == kids[if a < j then a else a + 1];
      assert kids'[c] == kids[if c < j then c else c + 1];
    }
  }

  /** The view without a file row. */
  function CutFile(v: View, file: string): View
    requires file in v.files
  {
    View(DropRow(v.order, v.files[file]), v.rows - {v.files[file]}, v.files - {file}, v.next)
  }

  lemma CutFileRows(v: View, file: string)
    requires RowsLinked(v) && OrderLinked(v) && file in v.files
    ensures RowsLinked(CutFile(v, file)) && OrderLinked(CutFile(v, file))
  {
    forall f | f in CutFile(v, file).files
      ensures v.files[f] != v.files[file]
    {
      assert v.rows[v.files[f]].path == f;
    }
  }

  /** Removing the last breakpoint of a file removes its row and its hash entry. */
  lemma RemoveFile(s: Store, v: View, file: string)
    requires Linked(s, v) && file in v.files
    ensures Linked(s[file := map[]], CutFile(v, file))
    ensures Sorted(v) ==> Sorted(CutFile(v, file))
  {
    hide KidsLinked, OrderLinked;
    CutFileRows(v, file);
    var s', v' := s[file := map[]], CutFile(v, file);
    forall f | f in v'.files
      ensures FileLinked(s', v', f)
    {
      assert FileLinked(s, v, f);
    }
  }

  lemma RemoveLinked(s: Store, v: View, file: string, line: int)
    requires Linked(s, v) && Has(s, file, line)
    ensures Linked(Del(s, file, line), RemoveView(v, s[file][line]))
    ensures Sorted(v) ==> Sorted(RemoveView(v, s[file][line]))
  {
    hide KidsLinked, OrderLinked, Ascending, DistinctIds, AllEnabled;
    var j := RowExists(s, v, file, line);
    var r := v.files[file];
    var kids := Without(v.rows[r].kids, j);
    assert FileLinked(s, v, file);
    RemoveKid(v.rows[r].kids, s[file], r, v.next, j);
    RemoveKidDistinct(v.rows[r].kids, j);
    if kids == [] {
      RemoveFile(s, v, file);
    } else {
      SetKidsLinked(s, v, file, s[file] - {line}, kids, v.next);
      CheckRowAgrees(Del(s, file, line), SetKids(v, r, kids), r);
    }
  }
}
