/**
 The values that the debugger keeps about breakpoints, and what it means for the
 breakpoint store and the tree view to agree.

 A store maps a file name to that file's breakpoints by line (the hash table of GTrees
 in breakpoints.c).  A view is the GtkTreeStore of bptree.c: top-level file rows in
 display order, each with its child rows, and the hash from file name to file row.
 */
module BreakModel {

  /** A persistent tree iterator: the file row and the child row it points to. */
  datatype Iter = Iter(fileRow: nat, kid: nat)

  /** The contents of a `breakpoint` structure. */
  datatype Break = Break(file: string, line: int, condition: string, enabled: bool, hits: int, iter: Iter)

  /** A child row with its visible columns. */
  datatype KidRow = KidRow(id: nat, line: int, condition: string, enabled: bool, hits: int)

  /** A file row: full path, checkbox, child rows. */
  datatype FileRow = FileRow(path: string, enabled: bool, kids: seq<KidRow>)

  datatype View = View(order: seq<nat>, rows: map<nat, FileRow>, files: map<string, nat>, next: nat)

  type LineTree = map<int, Break>

  type Store = map<string, LineTree>

  // ----- The store

  predicate Has(s: Store, file: string, line: int) {
    file in s && line in s[file]
  }

  /** Every breakpoint sits under its own file and line. */
  ghost predicate Keyed(s: Store) {
    forall f | f in s :: TreeKeyed(s[f], f)
  }

  ghost predicate TreeKeyed(tree: LineTree, file: string) {
    forall l | l in tree :: tree[l].file == file && tree[l].line == l
  }

  function Put(s: Store, b: Break): Store {
    s[b.file := (if b.file in s then s[b.file] else map[])[b.line := b]]
  }

  function Del(s: Store, file: string, line: int): Store
    requires file in s
  {
    s[file := s[file] - {line}]
  }

  /** A store that differs from `s` at most in the breakpoint at `file`:`line`, which is now `b`. */
  function Set(s: Store, file: string, line: int, b: Break): Store
    requires file in s
  {
    s[file := s[file][line := b]]
  }

  /** The store after the breakpoint at `line` became `b`, possibly on another line. */
  function Moved(s: Store, file: string, line: int, b: Break): Store
    requires file in s
  {
    s[file := (s[file] - {line})[b.line := b]]
  }

  lemma KeyedAt(s: Store, f: string)
    requires Keyed(s) && f in s
    ensures TreeKeyed(s[f], f)
  {
  }

  lemma KeyedStores(s: Store, b: Break)
    requires Keyed(s)
    ensures Keyed(Put(s, b))
    ensures Has(s, b.file, b.line) ==> Keyed(Set(s, b.file, b.line, b)) && Keyed(Del(s, b.file, b.line))
  {
    assert b.file in s ==> TreeKeyed(s[b.file], b.file);
  }

  /** Clearing the target line first makes no difference. */
  lemma MovedAfterDel(s: Store, file: string, line: int, b: Break)
    requires Has(s, file, line) && b.line != line
    ensures Moved(Del(s, file, b.line), file, line, b) == Moved(s, file, line, b)
  {
    assert (s[file] - {b.line} - {line})[b.line := b] == (s[file] - {line})[b.line := b];
  }

  lemma PutAfterDel(s: Store, b: Break)
    requires Has(s, b.file, b.line)
    ensures Put(Del(s, b.file, b.line), b) == Put(s, b)
  {
    assert (s[b.file] - {b.line})[b.line := b] == s[b.file][b.line := b];
  }

  // ----- Child rows

  function IndexOf(kids: seq<KidRow>, id: nat): (j: int)
    ensures -1 <= j < |kids|
    ensures j >= 0 ==> kids[j].id == id
    ensures j == -1 <==> forall i | 0 <= i < |kids| :: kids[i].id != id
  {
    if kids == [] then -1
    else if kids[|kids| - 1].id == id then |kids| - 1
    else IndexOf(kids[..|kids| - 1], id)
  }

  ghost predicate DistinctIds(kids: seq<KidRow>) {
    forall i, j | 0 <= i < j < |kids| :: kids[i].id != kids[j].id
  }

  ghost predicate Ascending(kids: seq<KidRow>) {
    forall i, j | 0 <= i < j < |kids| :: kids[i].line < kids[j].line
  }

  predicate AllEnabled(kids: seq<KidRow>) {
    forall i | 0 <= i < |kids| :: kids[i].enabled
  }

  /** The row that shows breakpoint `b`. */
  function RowOf(b: Break): KidRow {
    KidRow(b.iter.kid, b.line, b.condition, b.enabled, b.hits)
  }

  ghost predicate IdsBelow(kids: seq<KidRow>, next: nat) {
    forall j | 0 <= j < |kids| :: 0 < kids[j].id < next
  }

  /** Row `row` shows the breakpoint of `tree` on its line, and that breakpoint points back to it. */
  predicate Shows(row: KidRow, tree: LineTree, fileRow: nat) {
    row.line in tree && RowOf(tree[row.line]) == row && tree[row.line].iter.fileRow == fileRow
  }

  ghost predicate AllShow(kids: seq<KidRow>, tree: LineTree, fileRow: nat) {
    forall j | 0 <= j < |kids| :: Shows(kids[j], tree, fileRow)
  }

  ghost predicate HasRow(kids: seq<KidRow>, line: int) {
    exists j :: 0 <= j < |kids| && kids[j].line == line
  }

  ghost predicate AllShown(kids: seq<KidRow>, tree: LineTree) {
    forall l | l in tree :: HasRow(kids, l)
  }

  /** The children of file row `fileRow` are exactly the breakpoints of `tree`. */
  ghost predicate KidsLinked(kids: seq<KidRow>, tree: LineTree, fileRow: nat, next: nat) {
    DistinctIds(kids) && IdsBelow(kids, next) && AllShow(kids, tree, fileRow) && AllShown(kids, tree)
  }

  /** One file row and one hash entry per file that has a breakpoint; no other rows. */
  ghost predicate FilesLinked(s: Store, v: View) {
    (forall f :: f in v.files <==> f in s && s[f] != map[]) && RowsLinked(v) && OrderLinked(v)
  }

  /** File rows and hash entries correspond one to one. */
  ghost predicate RowsLinked(v: View) {
    && (forall f | f in v.files :: v.files[f] in v.rows && v.rows[v.files[f]].path == f)
    && (forall r | r in v.rows :: r < v.next && v.rows[r].path in v.files && v.files[v.rows[r].path] == r)
  }

  /** The top-level rows are displayed once each. */
  ghost predicate OrderLinked(v: View) {
    forall r :: multiset(v.order)[r] == if r in v.rows then 1 else 0
  }

  /** Each stored breakpoint has exactly one row, with equal fields, and there are no other rows. */
  ghost predicate Linked(s: Store, v: View) {
    && Keyed(s)
    && FilesLinked(s, v)
    && forall f | f in v.files :: FileLinked(s, v, f)
  }

  ghost predicate FileLinked(s: Store, v: View, f: string)
    requires f in s && f in v.files && v.files[f] in v.rows
  {
    KidsLinked(v.rows[v.files[f]].kids, s[f], v.files[f], v.next)
  }

  ghost predicate Sorted(v: View) {
    forall r | r in v.rows :: Ascending(v.rows[r].kids)
  }

  /** Store and view agree. */
  ghost predicate Agrees(s: Store, v: View) {
    Linked(s, v) && Sorted(v)
  }

  /** Every file checkbox is set exactly when all breakpoints of the file are enabled. */
  ghost predicate Checked(v: View) {
    forall r | r in v.rows :: v.rows[r].enabled == AllEnabled(v.rows[r].kids)
  }

  // ----- What bptree.c does to the view

  function SetKids(v: View, r: nat, kids: seq<KidRow>): View
    requires r in v.rows
  {
    v.(rows := v.rows[r := v.rows[r].(kids := kids)])
  }

  /** The index of the row that `it` points to, or -1. */
  function KidAt(v: View, it: Iter): (j: int)
    ensures -1 <= j
    ensures j >= 0 ==> it.fileRow in v.rows && j < |v.rows[it.fileRow].kids| && v.rows[it.fileRow].kids[j].id == it.kid
  {
    if it.fileRow in v.rows then IndexOf(v.rows[it.fileRow].kids, it.kid) else -1
  }

  /** Overwrites the row that `it` points to; nothing happens if there is none. */
  function SetKid(v: View, it: Iter, row: KidRow): View {
    var j := KidAt(v, it);
    if j < 0 then v else SetKids(v, it.fileRow, v.rows[it.fileRow].kids[j := row])
  }

  /** Overwrites all cells of the row that `b.iter` points to. */
  function UpdateView(v: View, b: Break): View {
    SetKid(v, b.iter, RowOf(b))
  }

  /** The row that `it` points to, if any, with one cell taken from `b`. */
  function EnabledCell(v: View, b: Break): View {
    var j := KidAt(v, b.iter);
    if j < 0 then v else SetKid(v, b.iter, v.rows[b.iter.fileRow].kids[j].(enabled := b.enabled))
  }

  function HitsCell(v: View, b: Break): View {
    var j := KidAt(v, b.iter);
    if j < 0 then v else SetKid(v, b.iter, v.rows[b.iter.fileRow].kids[j].(hits := b.hits))
  }

  function ConditionCell(v: View, b: Break): View {
    var j := KidAt(v, b.iter);
    if j < 0 then v else SetKid(v, b.iter, v.rows[b.iter.fileRow].kids[j].(condition := b.condition))
  }

  function CheckRow(v: View, r: nat): View {
    if r !in v.rows then v
    else v.(rows := v.rows[r := v.rows[r].(enabled := AllEnabled(v.rows[r].kids))])
  }

  /** The place of a new child: before the first row with a greater line. */
  function InsertPos(kids: seq<KidRow>, line: int): (p: nat)
    ensures p <= |kids|
    ensures forall i | 0 <= i < p :: kids[i].line <= line
    ensures p < |kids| ==> kids[p].line > line
  {
    if kids == [] || kids[0].line > line then 0 else 1 + InsertPos(kids[1..], line)
  }

  function FileNode(v: View, file: string): View {
    if file in v.files then v
    else View([v.next] + v.order, v.rows[v.next := FileRow(file, true, [])], v.files[file := v.next], v.next + 1)
  }

  /** The iterator a new row for `file` gets. */
  function NewIter(v: View, file: string): Iter {
    var w := FileNode(v, file);
    Iter(w.files[file], w.next)
  }

  function AddView(v: View, b: Break): View
    requires b.file in v.files ==> v.files[b.file] in v.rows
  {
    var w := FileNode(v, b.file);
    var kids := w.rows[w.files[b.file]].kids;
    var p := InsertPos(kids, b.line);
    SetKids(w, w.files[b.file], InsertAt(kids, p, RowOf(b).(id := w.next))).(next := w.next + 1)
  }

  function InsertAt<T>(s: seq<T>, p: nat, x: T): (r: seq<T>)
    requires p <= |s|
    ensures |r| == |s| + 1 && r[p] == x
    ensures forall i | 0 <= i < p :: r[i] == s[i]
    ensures forall i | p < i < |r| :: r[i] == s[i - 1]
  {
    s[..p] + [x] + s[p..]
  }

  function Without<T>(s: seq<T>, j: nat): (r: seq<T>)
    requires j < |s|
    ensures |r| == |s| - 1
    ensures forall i | 0 <= i < j :: r[i] == s[i]
    ensures forall i | j <= i < |r| :: r[i] == s[i + 1]
  {
    s[..j] + s[j + 1..]
  }

  function DropRow(order: seq<nat>, r: nat): (o: seq<nat>)
    ensures multiset(o) == multiset(order)[r := 0]
  {
    if order == [] then []
    else
      assert order == [order[0]] + order[1..];
      if order[0] == r then DropRow(order[1..], r) else [order[0]] + DropRow(order[1..], r)
  }

  function RemoveView(v: View, b: Break): View {
    var r, j := b.iter.fileRow, KidAt(v, b.iter);
    if j < 0 then v
    else
      var kids := Without(v.rows[r].kids, j);
      if kids == [] then
        View(DropRow(v.order, r), v.rows - {r}, v.files - {b.file}, v.next)
      else
        CheckRow(SetKids(v, r, kids), r)
  }
}
