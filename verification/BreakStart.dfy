/**
 From idle to stopped and back: debug_run hands the stored breakpoints to GDB, and only what
 GDB then has makes the agreement with its table true.
 */
module BreakStart {
  import opened Decimal
  import opened BreakModel
  import opened BreakTree
  import opened BreakStore
  import opened BreakLists
  import opened GdbText
  import opened GdbMachine
  import opened GdbAgreement
  import opened DbmGdb
  import opened GdbStartup
  import opened Breakpoints

  /** Locations of this file are found again in GDB's table. */
  predicate Showable(file: string, quotes: bool) {
    if quotes then file != "" else !LooksQuoted(file)
  }

  ghost predicate AllShowable(s: Store, quotes: bool) {
    forall f, l | Has(s, f, l) :: Showable(f, quotes)
  }

  ghost predicate ListShowable(breaks: seq<Break>, quotes: bool) {
    forall i | 0 <= i < |breaks| :: Showable(breaks[i].file, quotes)
  }

  lemma ShowableAlike(s: Store, breaks: seq<Break>, quotes: bool)
    requires Lists(s, breaks)
    ensures AllShowable(s, quotes) <==> ListShowable(breaks, quotes)
  {
    hide Showable, Lists;
    forall i | 0 <= i < |breaks|
      ensures Has(s, breaks[i].file, breaks[i].line)
    {
      assert ListsPlace(breaks, breaks[i].file, breaks[i].line);
      ListedIsStored(s, breaks, breaks[i].file, breaks[i].line);
    }
    forall f, l | Has(s, f, l)
      ensures ListsPlace(breaks, f, l)
    {
      ListedIsStored(s, breaks, f, l);
    }
  }

  /** The entry of a showable breakpoint is found for its own place only. */
  lemma EntryMatches(b: Break, number: nat, quotes: bool, f: string, l: int)
    requires Showable(b.file, quotes)
    ensures Mirrors(Entry(b, number, quotes), b)
    ensures Matches(Entry(b, number, quotes).location, f, l) <==> b.file == f && b.line == l
  {
    hide Matches, ShowsPlace, Shown;
    ShowsPlaceExactly(b.file, b.line, quotes);
    ShownIsFound(Shown(b.file, b.line, quotes), b.file, b.line, f, l);
  }

  /** Entry `i` is the one that is found for breakpoint `i`. */
  lemma EntryFound(breaks: seq<Break>, quotes: bool, i: nat)
    requires ListShowable(breaks, quotes) && DistinctPlaces(breaks) && i < |breaks|
    ensures FindBreak(Entries(breaks, quotes), breaks[i].file, breaks[i].line) == i
    ensures Mirrors(Entries(breaks, quotes)[i], breaks[i])
  {
    hide Matches, Entry, Mirrors, Showable;
    forall j | 0 <= j <= i
      ensures Matches(Entries(breaks, quotes)[j].location, breaks[i].file, breaks[i].line) <==> j == i
    {
      EntryMatches(breaks[j], j + 1, quotes, breaks[i].file, breaks[i].line);
    }
    EntryMatches(breaks[i], i + 1, quotes, breaks[i].file, breaks[i].line);
    FirstIsFound(Entries(breaks, quotes), breaks[i].file, breaks[i].line, i);
  }

  lemma EntriesNumbered(breaks: seq<Break>, quotes: bool)
    requires |breaks| + 1 <= MAX_NUMBER
    ensures WellNumbered(BreakTable(breaks, quotes))
  {
  }

  /** The place of a stored breakpoint in the list. */
  lemma PlaceInList(s: Store, breaks: seq<Break>, f: string, l: int) returns (i: nat)
    requires Lists(s, breaks) && Has(s, f, l)
    ensures i < |breaks| && breaks[i].file == f && breaks[i].line == l && SameBreak(s[f][l], breaks[i])
  {
    i := LastPlace(breaks, f, l);
    assert Holds(s, breaks[i]);
  }

  lemma SameMirrors(g: GdbBreak, a: Break, b: Break)
    requires SameBreak(a, b)
    ensures Mirrors(g, a) <==> Mirrors(g, b)
  {
    hide ShowsPlace;
  }

  /** Showable breakpoints agree with the table that they are started with. */
  lemma ShowableAgrees(s: Store, breaks: seq<Break>, quotes: bool)
    requires Keyed(s) && Lists(s, breaks) && DistinctPlaces(breaks) && |breaks| + 1 <= MAX_NUMBER
    requires ListShowable(breaks, quotes)
    ensures GdbAgrees(s, BreakTable(breaks, quotes))
  {
    hide Keyed, Lists, DistinctPlaces, ListShowable, WellNumbered, Mirrors;
    EntriesNumbered(breaks, quotes);
    var entries := Entries(breaks, quotes);
    forall f, l | Has(s, f, l)
      ensures Mirrored(s, entries, f, l)
    {
      var i := PlaceInList(s, breaks, f, l);
      EntryFound(breaks, quotes, i);
      SameMirrors(entries[i], s[f][l], breaks[i]);
    }
    forall i | 0 <= i < |entries|
      ensures Owned(s, entries, i)
    {
      EntryFound(breaks, quotes, i);
      assert ListsPlace(breaks, breaks[i].file, breaks[i].line);
      ListedIsStored(s, breaks, breaks[i].file, breaks[i].line);
    }
  }

  function Longest(breaks: seq<Break>): (n: nat)
    ensures forall i | 0 <= i < |breaks| :: |breaks[i].file| <= n
  {
    if breaks == [] then 0
    else
      var m, k := Longest(breaks[..|breaks| - 1]), |breaks[|breaks| - 1].file|;
      if k > m then k else m
  }

  /** An entry that stands for a place that cannot be shown is the one of a longer name that cannot be shown either. */
  lemma LongerName(f: string, l: int, file: string, line: int, quotes: bool)
    requires ShowsPlace(Shown(file, line, quotes), f, l) && !Showable(f, quotes)
    ensures |file| > |f| && !Showable(file, quotes)
  {
    hide Int;
    if quotes {
      QuotedNotNameless(file, line, l);
    } else {
      NameOfPlain(file, line, "\"" + f + "\"", l);
    }
  }

  lemma QuotedNotNameless(file: string, line: int, l: int)
    ensures Location(file, line) != PlainLocation("", l)
  {
    hide Int;
    assert Location(file, line)[0] != PlainLocation("", l)[0];
  }

  lemma NameOfPlain(a: string, l: int, b: string, m: int)
    requires PlainLocation(a, l) == PlainLocation(b, m)
    ensures a == b
  {
    hide Int;
    NoColonInInt(l);
    NoColonInInt(m);
    LastColon(a, Int(l));
    LastColon(b, Int(m));
  }

  /** A breakpoint that cannot be shown is not found, or stands for one with a longer name. */
  lemma {:induction false} UnshowableDisagrees(s: Store, breaks: seq<Break>, quotes: bool, f: string, l: int)
    requires Keyed(s) && Lists(s, breaks) && Has(s, f, l) && !Showable(f, quotes)
    ensures !GdbAgrees(s, BreakTable(breaks, quotes))
    decreases Longest(breaks) - |f|
  {
    hide Lists, Showable, ShowsPlace, WellNumbered, Owned, Matches, Shown;
    var entries := Entries(breaks, quotes);
    if GdbAgrees(s, BreakTable(breaks, quotes)) {
      KeyedAt(s, f);
      var i := PlaceInList(s, breaks, f, l);
      assert Mirrored(s, entries, f, l);
      var j := FindBreak(entries, f, l);
      LongerName(f, l, breaks[j].file, breaks[j].line, quotes);
      assert ListsPlace(breaks, breaks[j].file, breaks[j].line);
      ListedIsStored(s, breaks, breaks[j].file, breaks[j].line);
      UnshowableDisagrees(s, breaks, quotes, breaks[j].file, breaks[j].line);
    }
  }

  /**
   The table that a start-up leaves agrees with the store whose breakpoints it was given
   exactly when all their locations are found again.
   */
  lemma StartAgrees(s: Store, breaks: seq<Break>, quotes: bool)
    requires Keyed(s) && Lists(s, breaks) && DistinctPlaces(breaks) && |breaks| + 1 <= MAX_NUMBER
    ensures GdbAgrees(s, BreakTable(breaks, quotes)) <==> AllShowable(s, quotes)
  {
    hide GdbAgrees, BreakTable, Lists, DistinctPlaces, Showable;
    ShowableAlike(s, breaks, quotes);
    if AllShowable(s, quotes) {
      ShowableAgrees(s, breaks, quotes);
    } else {
      var f, l :| Has(s, f, l) && !Showable(f, quotes);
      UnshowableDisagrees(s, breaks, quotes, f, l);
    }
  }

  /**
   debug_run in the idle state, up to the first stop of the debuggee or the exit of GDB after
   a failed command.
   */
  method DebugRun(b: Breakpoints, m: Startup, target: string, commandline: string, lang: string,
                  env: seq<(string, string)>, terminal: string)
      returns (ghost breaks: seq<Break>, ghost started: bool)
    requires b.InStep() && b.state == Idle
    modifies m, b.gdb, b`state
    ensures b.InView() && b.state == if started then Stopped else Idle
    ensures started ==> target != "" && Lists(b.store.contents, breaks) && DistinctPlaces(breaks)
    ensures !started ==> b.InStep()
    ensures started ==> Started(m, StartupLines(target, commandline, lang, env, breaks, terminal))
    ensures started && AllSendable(StartupLines(target, commandline, lang, env, breaks, terminal)) ==>
      && b.gdb.table == BreakTable(breaks, old(b.gdb.table.quotes))
      && b.gdb.inferior == ReadyInferior(target, commandline, lang, env, terminal)
      && (b.InStep() <==> AllShowable(b.store.contents, old(b.gdb.table.quotes)))
  {
    hide GdbAgrees, Agrees, Sized, Lists, DistinctPlaces, StartupLines, AllShowable, Started, ReadyInferior;
    breaks, started := [], false;
    var spawned: bool := *;
    if target != "" && spawned {
      var list, values := AllBreaks(b.store);
      breaks := values;
      ghost var done := StartDebuggee(m, b.gdb, target, commandline, lang, env, values, terminal);
      if m.phase == Running {
        started := true;
        b.state := Stopped;
        ghost var lines := StartupLines(target, commandline, lang, env, breaks, terminal);
        if AllSendable(lines) {
          StartAgrees(b.store.contents, breaks, old(b.gdb.table.quotes));
        }
      }
    }
  }

  /** on_debugger_exited: GDB's table no longer matters. */
  method OnDebuggerExited(b: Breakpoints)
    requires b.InView()
    modifies b`state
    ensures b.state == Idle && b.InStep()
  {
    hide Agrees, Sized, BreakStore.Valid;
    b.state := Idle;
  }
}
