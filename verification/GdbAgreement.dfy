/**
 What it means for GDB's breakpoint table to mirror the breakpoint store, and how single
 commands preserve it.
 */
module GdbAgreement {
  import opened BreakModel
  import opened GdbText
  import opened GdbMachine

  /** The first table entry that get_break_number takes for `file`:`line`, or -1. */
  function FindBreak(breaks: seq<GdbBreak>, file: string, line: int): (i: int)
    ensures -1 <= i < |breaks|
    ensures i >= 0 ==> Matches(breaks[i].location, file, line)
    ensures forall j | 0 <= j < (if i >= 0 then i else |breaks|) :: !Matches(breaks[j].location, file, line)
  {
    hide Matches;
    if breaks == [] then -1
    else
      var n := |breaks| - 1;
      var i := FindBreak(breaks[..n], file, line);
      assert forall j | 0 <= j < n :: breaks[..n][j] == breaks[j];
      if i >= 0 then i else if Matches(breaks[n].location, file, line) then n else -1
  }

  /** GDB's entry `g` has the settings of breakpoint `b`. */
  predicate Mirrors(g: GdbBreak, b: Break) {
    ShowsPlace(g.location, b.file, b.line) && g.enabled == b.enabled && g.condition == b.condition && g.ignore == b.hits
  }

  ghost predicate Mirrored(s: Store, breaks: seq<GdbBreak>, f: string, l: int)
    requires Has(s, f, l)
  {
    var i := FindBreak(breaks, f, l);
    i >= 0 && Mirrors(breaks[i], s[f][l])
  }

  /** Entry `i` is the one that is found for some stored breakpoint. */
  ghost predicate Owned(s: Store, breaks: seq<GdbBreak>, i: int) {
    exists f, l :: Has(s, f, l) && FindBreak(breaks, f, l) == i
  }

  /** One entry per stored breakpoint, with equal settings, and no other entries. */
  ghost predicate GdbAgrees(s: Store, t: Table) {
    && WellNumbered(t)
    && Keyed(s)
    && (forall f, l | Has(s, f, l) :: Mirrored(s, t.breaks, f, l))
    && (forall i | 0 <= i < |t.breaks| :: Owned(s, t.breaks, i))
  }

  /** An entry belongs to one file and line. */
  lemma EntryIsOwn(s: Store, t: Table, i: int, f: string, l: int)
    requires GdbAgrees(s, t) && 0 <= i < |t.breaks|
    ensures Matches(t.breaks[i].location, f, l) <==> Has(s, f, l) && FindBreak(t.breaks, f, l) == i
  {
    assert Owned(s, t.breaks, i);
    var f', l' :| Has(s, f', l') && FindBreak(t.breaks, f', l') == i;
    assert Mirrored(s, t.breaks, f', l') && TreeKeyed(s[f'], f');
    ShownIsFound(t.breaks[i].location, f', l', f, l);
  }

  /** Different breakpoints have different entries. */
  lemma DifferentEntries(s: Store, t: Table, f: string, l: int, f': string, l': int)
    requires GdbAgrees(s, t) && Has(s, f, l) && Has(s, f', l') && !(f' == f && l' == l)
    ensures FindBreak(t.breaks, f, l) >= 0 && FindBreak(t.breaks, f', l') >= 0
    ensures FindBreak(t.breaks, f, l) != FindBreak(t.breaks, f', l')
  {
    hide Matches, ShowsPlace;
    assert Mirrored(s, t.breaks, f, l) && Mirrored(s, t.breaks, f', l') && TreeKeyed(s[f], f);
    ShownIsFound(t.breaks[FindBreak(t.breaks, f, l)].location, f, l, f', l');
  }

  /** Changes that keep the locations do not change what is found. */
  lemma FindByLocation(a: seq<GdbBreak>, b: seq<GdbBreak>, f: string, l: int)
    requires |a| == |b| && forall i | 0 <= i < |a| :: a[i].location == b[i].location
    ensures FindBreak(a, f, l) == FindBreak(b, f, l)
  {
  }

  lemma NumberedChange(t: Table, i: nat, g: GdbBreak)
    requires WellNumbered(t) && i < |t.breaks| && g.number == t.breaks[i].number
    ensures WellNumbered(t.(breaks := t.breaks[i := g]))
    ensures WellNumbered(t.(breaks := Without(t.breaks, i)))
  {
  }

  /** Changing a stored breakpoint and its entry alike. */
  lemma ChangeAgrees(s: Store, t: Table, f: string, l: int, b: Break, g: GdbBreak)
    requires GdbAgrees(s, t) && Has(s, f, l)
    requires b.file == f && b.line == l
    requires var i := FindBreak(t.breaks, f, l); i >= 0 && g.location == t.breaks[i].location && g.number == t.breaks[i].number && Mirrors(g, b)
    ensures GdbAgrees(Set(s, f, l, b), t.(breaks := t.breaks[FindBreak(t.breaks, f, l) := g]))
  {
    hide Matches, ShowsPlace, Keyed, WellNumbered;
    KeyedStores(s, b);
    var i := FindBreak(t.breaks, f, l);
    NumberedChange(t, i, g);
    var s', breaks' := Set(s, f, l, b), t.breaks[i := g];
    forall f', l' | Has(s', f', l')
      ensures Mirrored(s', breaks', f', l')
    {
      FindByLocation(t.breaks, breaks', f', l');
      assert Mirrored(s, t.breaks, f', l');
      if !(f' == f && l' == l) { DifferentEntries(s, t, f, l, f', l'); }
    }
    forall j | 0 <= j < |breaks'|
      ensures Owned(s', breaks', j)
    {
      assert Owned(s, t.breaks, j);
      var f', l' :| Has(s, f', l') && FindBreak(t.breaks, f', l') == j;
      FindByLocation(t.breaks, breaks', f', l');
      assert Has(s', f', l');
    }
  }

  /** What is found once the first entry for another place is gone. */
  lemma FindWithout(s: Store, t: Table, f: string, l: int, f': string, l': int)
    requires GdbAgrees(s, t) && Has(s, f, l) && Has(s, f', l') && !(f' == f && l' == l)
    ensures var i, j := FindBreak(t.breaks, f, l), FindBreak(t.breaks, f', l');
      i >= 0 && j >= 0 && i != j && FindBreak(Without(t.breaks, i), f', l') == if j < i then j else j - 1
  {
    hide Matches, ShowsPlace, Keyed, WellNumbered, Mirrors;
    var i, j := FindBreak(t.breaks, f, l), FindBreak(t.breaks, f', l');
    DifferentEntries(s, t, f, l, f', l');
    var k := FindBreak(Without(t.breaks, i), f', l');
    var j' := if j < i then j else j - 1;
    assert Without(t.breaks, i)[j'] == t.breaks[j];
    assert k >= 0 && k <= j';
    var k' := if k < i then k else k + 1;
    assert Without(t.breaks, i)[k] == t.breaks[k'];
    EntryIsOwn(s, t, k', f', l');
  }

  /** Removing a stored breakpoint and its entry. */
  lemma DeleteAgrees(s: Store, t: Table, f: string, l: int)
    requires GdbAgrees(s, t) && Has(s, f, l)
    ensures FindBreak(t.breaks, f, l) >= 0
    ensures GdbAgrees(Del(s, f, l), t.(breaks := Without(t.breaks, FindBreak(t.breaks, f, l))))
  {
    hide Matches, ShowsPlace, Keyed, WellNumbered, Mirrors;
    assert Mirrored(s, t.breaks, f, l);
    assert TreeKeyed(s[f], f) && s[f][l].file == f && s[f][l].line == l by { KeyedAt(s, f); }
    KeyedStores(s, s[f][l]);
    var i := FindBreak(t.breaks, f, l);
    NumberedChange(t, i, t.breaks[i]);
    var s', breaks' := Del(s, f, l), Without(t.breaks, i);
    forall f', l' | Has(s', f', l')
      ensures Mirrored(s', breaks', f', l')
    {
      StillMirrored(s, t, f, l, f', l');
    }
    forall j | 0 <= j < |breaks'|
      ensures Owned(s', breaks', j)
    {
      StillOwned(s, t, f, l, j);
    }
  }

  /** The breakpoints that stay still have their entries. */
  lemma StillMirrored(s: Store, t: Table, f: string, l: int, f': string, l': int)
    requires GdbAgrees(s, t) && Has(s, f, l) && Has(s, f', l') && !(f' == f && l' == l)
    ensures 0 <= FindBreak(t.breaks, f, l) && Has(Del(s, f, l), f', l')
    ensures Mirrored(Del(s, f, l), Without(t.breaks, FindBreak(t.breaks, f, l)), f', l')
  {
    hide Matches, ShowsPlace, Keyed, WellNumbered, Mirrors, FindBreak;
    FindWithout(s, t, f, l, f', l');
    assert Mirrored(s, t.breaks, f', l');
  }

  /** The entries that stay still belong to stored breakpoints. */
  lemma StillOwned(s: Store, t: Table, f: string, l: int, j: nat)
    requires GdbAgrees(s, t) && Has(s, f, l) && 0 <= FindBreak(t.breaks, f, l)
    requires j < |t.breaks| - 1
    ensures Owned(Del(s, f, l), Without(t.breaks, FindBreak(t.breaks, f, l)), j)
  {
    hide Matches, ShowsPlace, Keyed, WellNumbered, Mirrors, FindBreak, Without;
    var i := FindBreak(t.breaks, f, l);
    var k := if j < i then j else j + 1;
    assert Owned(s, t.breaks, k);
    var f', l' :| Has(s, f', l') && FindBreak(t.breaks, f', l') == k;
    FindWithout(s, t, f, l, f', l');
    assert Has(Del(s, f, l), f', l');
  }

  /** Inserting a breakpoint at a new place and an entry with its settings. */
  lemma InsertAgrees(s: Store, t: Table, b: Break, g: GdbBreak)
    requires GdbAgrees(s, t) && !Has(s, b.file, b.line)
    requires Mirrors(g, b) && g.number == t.next && t.next < MAX_NUMBER
    ensures GdbAgrees(Put(s, b), Appended(t, g))
  {
    hide Matches, ShowsPlace, Keyed;
    KeyedStores(s, b);
    var s', breaks' := Put(s, b), t.breaks + [g];
    forall f, l | Has(s', f, l)
      ensures Mirrored(s', breaks', f, l)
    {
      FindAppended(s, t, b, g, f, l);
      if Has(s, f, l) { assert Mirrored(s, t.breaks, f, l); }
    }
    forall j | 0 <= j < |breaks'|
      ensures Owned(s', breaks', j)
    {
      if j < |t.breaks| {
        assert Owned(s, t.breaks, j);
        var f, l :| Has(s, f, l) && FindBreak(t.breaks, f, l) == j;
        FindAppended(s, t, b, g, f, l);
        assert Has(s', f, l);
      } else {
        FindAppended(s, t, b, g, b.file, b.line);
        assert Has(s', b.file, b.line);
      }
    }
  }

  lemma FindAppended(s: Store, t: Table, b: Break, g: GdbBreak, f: string, l: int)
    requires GdbAgrees(s, t) && !Has(s, b.file, b.line)
    requires ShowsPlace(g.location, b.file, b.line) && Has(Put(s, b), f, l)
    ensures FindBreak(t.breaks + [g], f, l) == if Has(s, f, l) then FindBreak(t.breaks, f, l) else |t.breaks|
    ensures Has(s, f, l) ==> FindBreak(t.breaks, f, l) >= 0
  {
    var breaks' := t.breaks + [g];
    assert breaks'[..|breaks'| - 1] == t.breaks;
    if Has(s, f, l) {
      assert Mirrored(s, t.breaks, f, l);
    } else {
      ShownIsFound(g.location, b.file, b.line, f, l);
      var i := FindBreak(t.breaks, f, l);
      if i >= 0 { EntryIsOwn(s, t, i, f, l); }
    }
  }

  /** An entry that misses a setting of the new breakpoint, or that is not found again. */
  lemma BadEntryDisagrees(s: Store, t: Table, b: Break, g: GdbBreak)
    requires GdbAgrees(s, t) && !Has(s, b.file, b.line)
    requires g.location == Shown(b.file, b.line, t.quotes) && !Mirrors(g, b)
    ensures !GdbAgrees(Put(s, b), Appended(t, g))
  {
    hide Matches, ShowsPlace, Shown;
    var breaks' := t.breaks + [g];
    assert Has(Put(s, b), b.file, b.line);
    if ShowsPlace(g.location, b.file, b.line) {
      FindAppended(s, t, b, g, b.file, b.line);
      assert breaks'[|t.breaks|] == g;
    } else {
      NotShownIsLost(b.file, b.line, t.quotes);
      NotFound(s, t, b, g);
    }
    assert !Mirrored(Put(s, b), breaks', b.file, b.line);
  }

  lemma NotFound(s: Store, t: Table, b: Break, g: GdbBreak)
    requires GdbAgrees(s, t) && !Has(s, b.file, b.line) && !Matches(g.location, b.file, b.line)
    ensures FindBreak(t.breaks + [g], b.file, b.line) == -1
  {
    hide Matches;
    var breaks' := t.breaks + [g];
    var i := FindBreak(breaks', b.file, b.line);
    if 0 <= i < |t.breaks| { EntryIsOwn(s, t, i, b.file, b.line); }
  }
}
