/**
 The breakpoints of a store as a list, which is how they are saved and how they are handed
 to a debugger that is started.
 */
module BreakLists {
  import opened BreakModel
  import opened BreakTree
  import opened BreakStore

  /** Equal in everything but the place in a tree view. */
  predicate SameBreak(a: Break, b: Break) {
    a.(iter := b.iter) == b
  }

  ghost predicate DistinctPlaces(breaks: seq<Break>) {
    forall i, j | 0 <= i < j < |breaks| :: !(breaks[i].file == breaks[j].file && breaks[i].line == breaks[j].line)
  }

  ghost predicate ListsPlace(breaks: seq<Break>, file: string, line: int) {
    exists i :: 0 <= i < |breaks| && breaks[i].file == file && breaks[i].line == line
  }

  /** No later breakpoint has the same place. */
  ghost predicate LastAt(breaks: seq<Break>, i: nat)
    requires i < |breaks|
  {
    forall j | i < j < |breaks| :: !(breaks[j].file == breaks[i].file && breaks[j].line == breaks[i].line)
  }

  predicate Holds(s: Store, b: Break) {
    Has(s, b.file, b.line) && SameBreak(s[b.file][b.line], b)
  }

  /** The store has exactly the listed breakpoints, the last one for each place. */
  ghost predicate Lists(s: Store, breaks: seq<Break>) {
    && (forall i | 0 <= i < |breaks| && LastAt(breaks, i) :: Holds(s, breaks[i]))
    && (forall f, l | Has(s, f, l) :: ListsPlace(breaks, f, l))
  }

  lemma {:induction false} LastPlace(breaks: seq<Break>, f: string, l: int) returns (i: nat)
    requires ListsPlace(breaks, f, l)
    ensures i < |breaks| && breaks[i].file == f && breaks[i].line == l && LastAt(breaks, i)
    decreases |breaks|
  {
    var n := |breaks| - 1;
    if breaks[n].file == f && breaks[n].line == l {
      i := n;
    } else {
      var k :| 0 <= k < |breaks| && breaks[k].file == f && breaks[k].line == l;
      assert breaks[..n][k] == breaks[k];
      i := LastPlace(breaks[..n], f, l);
      assert LastAt(breaks, i) by { assert forall j | i < j < n :: breaks[..n][j] == breaks[j]; }
    }
  }

  /** A place of the list has a breakpoint. */
  lemma ListedIsStored(s: Store, breaks: seq<Break>, f: string, l: int)
    requires Lists(s, breaks)
    ensures ListsPlace(breaks, f, l) <==> Has(s, f, l)
  {
    if ListsPlace(breaks, f, l) {
      var i := LastPlace(breaks, f, l);
      assert Holds(s, breaks[i]);
    }
  }

  /** The same breakpoints, apart from their places in the tree views. */
  ghost predicate SameBreaks(s: Store, s': Store) {
    forall f, l :: (Has(s, f, l) <==> Has(s', f, l)) && (Has(s, f, l) ==> SameBreak(s[f][l], s'[f][l]))
  }

  lemma ListsSame(s: Store, s': Store, breaks: seq<Break>)
    requires Lists(s, breaks) && Lists(s', breaks)
    ensures SameBreaks(s, s')
  {
    forall f, l
      ensures (Has(s, f, l) <==> Has(s', f, l)) && (Has(s, f, l) ==> SameBreak(s[f][l], s'[f][l]))
    {
      ListedIsStored(s, breaks, f, l);
      ListedIsStored(s', breaks, f, l);
      if Has(s, f, l) {
        var i := LastPlace(breaks, f, l);
        assert Holds(s, breaks[i]) && Holds(s', breaks[i]);
      }
    }
  }

  /** breaks_get_all, with the values of the structures. */
  method AllBreaks(store: BreakStore) returns (list: seq<Breakpoint>, values: seq<Break>)
    requires store.Valid()
    ensures |values| == |list| && forall i | 0 <= i < |list| :: values[i] == list[i].Value()
    ensures Lists(store.contents, values) && DistinctPlaces(values)
  {
    hide BreakStore.Valid;
    list := store.GetAll();
    values := seq(|list|, i requires 0 <= i < |list| reads list => list[i].Value());
    forall f, l | Has(store.contents, f, l)
      ensures ListsPlace(values, f, l)
    {
      assert Listed(list, f, l);
      var i :| 0 <= i < |list| && list[i].file == f && list[i].line == l;
      assert values[i].file == f && values[i].line == l;
    }
  }
}
