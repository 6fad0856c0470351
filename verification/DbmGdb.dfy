/**
 The part of dbm_gdb.c that changes breakpoints while the debuggee is stopped: commands
 are sent one at a time and the reply is awaited.  Any command may fail.
 */
module DbmGdb {
  import opened Common
  import opened Decimal
  import opened BreakModel
  import opened BreakTree
  import opened GdbText
  import opened GdbMachine
  import opened GdbAgreement
  import opened GdbInferior

  datatype Activity = UpdateEnable | UpdateCondition | UpdateHitsCount

  // ----- Lines that fit the command buffers

  function Pow10(k: nat): (p: nat)
    ensures p > 0
  {
    if k == 0 then 1 else 10 * Pow10(k - 1)
  }

  lemma {:induction false} DigitsBelow(n: nat, k: nat)
    requires k > 0 && n < Pow10(k)
    ensures |Digits(n)| <= k
  {
    if n >= 10 {
      assert k > 1 by { assert Pow10(1) == 10 * Pow10(0); }
      DigitsBelow(n / 10, k - 1);
    }
  }

  lemma IntShort(i: int)
    requires -0x8000_0000 <= i <= MAX_NUMBER
    ensures |Int(i)| <= if i < 0 then 11 else 10
  {
    assert Pow10(10) == 10000000000;
    DigitsBelow(if i < 0 then -i else i, 10);
  }

  lemma NoNewlineInInt(i: int)
    ensures '\n' !in Int(i)
  {
  }

  /** A condition that fits the command buffer whatever the number of its breakpoint is. */
  predicate FitsCondition(condition: string) {
    Sendable(ConditionLine(MAX_NUMBER, condition))
  }

  /** A C int. */
  predicate FitsCount(hits: int) {
    -0x8000_0000 <= hits <= 0x7fff_ffff
  }

  lemma CommandsFit(number: nat, hits: int)
    requires number <= MAX_NUMBER
    ensures Sendable(EnableLine(number, true)) && Sendable(EnableLine(number, false))
    ensures Sendable(DeleteLine(number)) && |DeleteLine(number)| <= 99
    ensures FitsCount(hits) ==> Sendable(AfterLine(number, hits))
  {
    hide Int;
    IntShort(number);
    NoNewlineInInt(number);
    NoNewlineInInt(hits);
    if FitsCount(hits) { IntShort(hits); }
  }

  lemma ConditionFits(number: nat, condition: string)
    requires number <= MAX_NUMBER && FitsCondition(condition)
    ensures Sendable(ConditionLine(number, condition))
  {
    hide Int;
    IntShort(number);
    NoNewlineInInt(number);
    MaxNumberLong();
    ConditionLength(number, condition);
    ConditionLength(MAX_NUMBER, condition);
    var head := "-break-condition " + Int(MAX_NUMBER) + " ";
    assert ConditionLine(MAX_NUMBER, condition) == head + condition;
    forall k | 0 <= k < |condition|
      ensures condition[k] != '\n'
    {
      assert (head + condition)[|head| + k] == condition[k];
    }
  }

  lemma ConditionLength(number: nat, condition: string)
    ensures |ConditionLine(number, condition)| == 18 + |Int(number)| + |condition|
  {
    hide Int;
  }

  lemma MaxNumberLong()
    ensures |Int(MAX_NUMBER)| == 10
  {
    assert Pow10(4) == 10000;
    assert Pow10(9) == 100000 * Pow10(4);
    DigitsAbove(MAX_NUMBER, 10);
    IntShort(MAX_NUMBER);
  }

  lemma {:induction false} DigitsAbove(n: nat, k: nat)
    requires k > 0 && Pow10(k - 1) <= n
    ensures |Digits(n)| >= k
  {
    if k > 1 {
      assert n >= 10 * Pow10(k - 2);
      assert Pow10(k - 2) > 0;
      DigitsAbove(n / 10, k - 1);
    }
  }

  lemma InsertFits(file: string, line: int)
    requires Sendable(InsertLine(file, line, true))
    ensures Sendable(InsertLine(file, line, false))
  {
    hide Int, Escape;
    var tail := "\"\\\"" + Escape(file) + "\\\":" + Int(line) + "\"";
    assert InsertLine(file, line, true) == "-break-insert -f " + tail;
    assert InsertLine(file, line, false) == "-break-insert " + tail;
    forall k | 0 <= k < |tail|
      ensures tail[k] != '\n'
    {
      assert InsertLine(file, line, true)[k + 17] == tail[k];
    }
  }

  /** The edit that an activity makes to GDB's entry. */
  function EditOf(b: Break, activity: Activity): Edit {
    match activity
    case UpdateEnable => SetEnabled(b.enabled)
    case UpdateCondition => Condition(b.condition)
    case UpdateHitsCount => Ignore(b.hits)
  }

  function LineOf(b: Break, activity: Activity, number: int): string {
    match activity
    case UpdateEnable => EnableLine(number, b.enabled)
    case UpdateCondition => ConditionLine(number, b.condition)
    case UpdateHitsCount => AfterLine(number, b.hits)
  }

  /** The command for the entry that GDB has for the breakpoint, if any, fits the command buffer. */
  predicate Sends(t: Table, b: Break, activity: Activity) {
    var i := FindBreak(t.breaks, b.file, b.line);
    i >= 0 ==> Sendable(LineOf(b, activity, t.breaks[i].number))
  }

  lemma SendsAlways(t: Table, b: Break)
    requires WellNumbered(t)
    ensures Sends(t, b, UpdateEnable)
    ensures FitsCount(b.hits) ==> Sends(t, b, UpdateHitsCount)
    ensures FitsCondition(b.condition) ==> Sends(t, b, UpdateCondition)
  {
    hide Sendable, EnableLine, AfterLine, ConditionLine, FitsCount, FitsCondition;
    var i := FindBreak(t.breaks, b.file, b.line);
    if i >= 0 {
      CommandsFit(t.breaks[i].number, b.hits);
      if FitsCondition(b.condition) { ConditionFits(t.breaks[i].number, b.condition); }
    }
  }

  lemma LineFits(b: Break, activity: Activity, number: nat)
    requires Sendable(LineOf(b, activity, number))
    ensures |LineOf(b, activity, number)| <= 999
    ensures Parse(LineOf(b, activity, number)) == Change(number, EditOf(b, activity))
  {
    hide Parse, EnableLine, AfterLine, ConditionLine;
    ParsesEnable(number, b.enabled);
    ParsesCondition(number, b.condition);
    ParsesAfter(number, b.hits);
  }

  lemma PlaceOfEntry(t: Table, i: nat)
    requires WellNumbered(t) && i < |t.breaks|
    ensures Place(t.breaks, t.breaks[i].number) == i
  {
  }

  lemma FirstIsFound(breaks: seq<GdbBreak>, file: string, line: int, i: nat)
    requires i < |breaks| && Matches(breaks[i].location, file, line)
    requires forall j | 0 <= j < i :: !Matches(breaks[j].location, file, line)
    ensures FindBreak(breaks, file, line) == i
  {
    hide Matches;
  }

  lemma NoneIsFound(breaks: seq<GdbBreak>, file: string, line: int)
    requires forall j | 0 <= j < |breaks| :: !Matches(breaks[j].location, file, line)
    ensures FindBreak(breaks, file, line) == -1
  {
    hide Matches;
  }

  /** All commands for a new breakpoint, which will have the given number, fit the command buffer. */
  predicate FitsNew(b: Break, number: nat) {
    && Sendable(InsertLine(b.file, b.line, true))
    && (b.hits != 0 ==> Sendable(AfterLine(number, b.hits)))
    && (b.condition != "" ==> Sendable(ConditionLine(number, b.condition)))
  }

  /** What may become of a freshly inserted entry: settings of later failed commands are missing. */
  predicate Configured(g: GdbBreak, b: Break, number: nat, quotes: bool) {
    && g.number == number
    && g.location == Shown(b.file, b.line, quotes)
    && (g.ignore == b.hits || g.ignore == 0)
    && (g.condition == b.condition || g.condition == "")
    && (g.enabled == b.enabled || g.enabled)
  }

  /** The entry as it is inserted. */
  function NewEntry(t: Table, b: Break): GdbBreak {
    GdbBreak(t.next, Shown(b.file, b.line, t.quotes), true, "", 0)
  }

  lemma ChangeLast(t: Table, g: GdbBreak, e: Edit)
    requires NumbersBelow(t) && g.number == t.next
    ensures Execute(Appended(t, g), Change(t.next, e)) == Appended(t, Apply(g, e))
  {
    var breaks' := t.breaks + [g];
    assert breaks'[|t.breaks|].number == t.next;
    assert Place(breaks', t.next) == |t.breaks|;
    assert breaks'[|t.breaks| := Apply(g, e)] == t.breaks + [Apply(g, e)];
  }

  class Gdb {
    var table: Table
    var inferior: Inferior
    /** How often GDB did not do what it was asked to, and the commands that it refused. */
    ghost var refusals: nat
    ghost var refused: seq<Command>

    constructor (quotes: bool)
      ensures table == EmptyTable(quotes) && inferior == NEW_INFERIOR && refusals == 0 && refused == []
    {
      table, inferior, refusals, refused := EmptyTable(quotes), NEW_INFERIOR, 0, [];
    }

    /** A new process of GDB. */
    method Spawn()
      modifies `table, `inferior
      ensures table == EmptyTable(old(table.quotes)) && inferior == NEW_INFERIOR
    {
      table, inferior := EmptyTable(table.quotes), NEW_INFERIOR;
    }

    /** exec_sync_command: a line that is cut short has an unknown effect. */
    method ExecSync(line: string) returns (done: bool)
      modifies this
      ensures Sendable(line) && done ==> Accepts(old(table), Parse(line)) && table == Execute(old(table), Parse(line))
      ensures Sendable(line) && !done ==> table == old(table)
      ensures Sendable(line) ==> inferior == if done then SetUp(old(inferior), ReadSetup(line)) else old(inferior)
      ensures refusals == old(refusals) + if done then 0 else 1
      ensures refused == old(refused) + if done then [] else [Parse(line)]
    {
      done := *;
      if !Sendable(line) {
        table, inferior := *, *;
      } else if done && Accepts(table, Parse(line)) {
        table := Execute(table, Parse(line));
        inferior := SetUp(inferior, ReadSetup(line));
      } else {
        done := false;
      }
      if !done {
        refusals := refusals + 1;
        refused := refused + [Parse(line)];
      }
    }

    /** One attempt to insert: the number in the reply record. */
    method TryInsert(b: Break, force: bool) returns (done: bool, number: int)
      modifies this
      ensures Sendable(InsertLine(b.file, b.line, force)) && !done ==> table == old(table)
      ensures Sendable(InsertLine(b.file, b.line, force)) && done ==>
        old(table).next < MAX_NUMBER && number == old(table).next && table == Appended(old(table), NewEntry(old(table), b))
      ensures refusals == old(refusals) + if done then 0 else 1
      ensures Sendable(InsertLine(b.file, b.line, force)) ==>
        refused == old(refused) + if done then [] else [Insert(Location(b.file, b.line), force)]
    {
      hide Parse, Location, InsertLine, Listed, Shown, ReadSetup;
      ParsesInsert(b.file, b.line, force);
      ListedLocation(b.file, b.line, table.quotes);
      done := ExecSync(Truncate(InsertLine(b.file, b.line, force), 999));
      number := table.next - 1;
    }

    /** One setting of a fresh entry; `fits` tells that all commands for the breakpoint fit. */
    method Configure(bp: Breakpoint, activity: Activity, number: int, ghost t: Table, ghost g: GdbBreak, ghost fits: bool)
        returns (done: bool, ghost g': GdbBreak)
      requires fits ==> WellNumbered(t) && number == t.next < MAX_NUMBER && g.number == number && table == Appended(t, g)
      requires fits ==> Sendable(LineOf(bp.Value(), activity, number))
      modifies this
      ensures fits ==> table == Appended(t, g')
      ensures g' == if done then Apply(g, EditOf(bp.Value(), activity)) else g
      ensures refusals == old(refusals) + if done then 0 else 1
    {
      hide Sendable, Parse, LineOf, ReadSetup;
      if fits {
        LineFits(bp.Value(), activity, number);
        ChangeLast(t, g, EditOf(bp.Value(), activity));
      }
      done := ExecSync(Truncate(LineOf(bp.Value(), activity, number), 999));
      g' := if done then Apply(g, EditOf(bp.Value(), activity)) else g;
    }

    /** The settings of set_break for a freshly inserted breakpoint: only a refused condition is a failure. */
    method ConfigureNew(bp: Breakpoint, number: int, ghost t: Table, ghost fits: bool) returns (done: bool, ghost g: GdbBreak)
      requires fits ==> WellNumbered(t) && number == t.next < MAX_NUMBER && FitsNew(bp.Value(), number)
      requires fits ==> table == Appended(t, NewEntry(t, bp.Value()))
      modifies this
      ensures fits ==> table == Appended(t, g)
      ensures Configured(g, bp.Value(), t.next, t.quotes) && (done <==> g.condition == bp.condition)
      ensures refusals >= old(refusals)
      ensures refusals == old(refusals) ==> g.ignore == bp.hitscount && g.condition == bp.condition && g.enabled == bp.enabled
    {
      hide Shown, Sendable, WellNumbered;
      if fits { CommandsFit(number, 0); }
      g := NewEntry(t, bp.Value());
      done := true;
      var ok;
      if bp.hitscount != 0 {
        ok, g := Configure(bp, UpdateHitsCount, number, t, g, fits);
      }
      if bp.condition != "" {
        ok, g := Configure(bp, UpdateCondition, number, t, g, fits);
        if !ok {
          done := false;
          return;
        }
      }
      if !bp.enabled {
        ok, g := Configure(bp, UpdateEnable, number, t, g, fits);
      }
    }

    /** set_break for a new breakpoint; `added` is the entry that GDB has afterwards. */
    method NewBreak(bp: Breakpoint) returns (done: bool, ghost added: Option<GdbBreak>)
      requires WellNumbered(table)
      modifies this
      ensures done ==> added.Some?
      ensures added.None? ==> refusals == old(refusals) + 2
      ensures FitsNew(bp.Value(), old(table).next) && added.None? ==>
        refused == old(refused) + [Insert(Location(bp.file, bp.line), false), Insert(Location(bp.file, bp.line), true)]
      ensures refusals >= old(refusals)
      ensures refusals == old(refusals) ==>
        done && added.value.ignore == bp.hitscount && added.value.condition == bp.condition && added.value.enabled == bp.enabled
      ensures FitsNew(bp.Value(), old(table).next) && added.None? ==> table == old(table)
      ensures FitsNew(bp.Value(), old(table).next) && added.Some? ==>
        && old(table).next < MAX_NUMBER
        && table == Appended(old(table), added.value)
        && Configured(added.value, bp.Value(), old(table).next, old(table).quotes)
        && (done <==> added.value.condition == bp.condition)
    {
      hide Sendable, WellNumbered, Configured, InsertLine, Location;
      ghost var t, fits := table, FitsNew(bp.Value(), table.next);
      if fits { InsertFits(bp.file, bp.line); }
      added := None;
      var number;
      done, number := TryInsert(bp.Value(), false);
      if !done {
        done, number := TryInsert(bp.Value(), true);
        if !done { return; }
      }
      ghost var g;
      done, g := ConfigureNew(bp, number, t, fits);
      added := Some(g);
    }

    /** get_break_number: -1 also when the table cannot be listed. */
    method GetBreakNumber(file: string, line: int) returns (number: int, ghost listed: bool)
      ensures number != -1 ==> FindBreak(table.breaks, file, line) >= 0
      ensures number != -1 ==> number == table.breaks[FindBreak(table.breaks, file, line)].number
      ensures number == -1 ==> !listed || FindBreak(table.breaks, file, line) == -1
    {
      hide Matches;
      number := -1;
      var answered: bool := *;
      listed := answered;
      if answered {
        var i := 0;
        while i < |table.breaks|
          invariant 0 <= i <= |table.breaks|
          invariant forall j | 0 <= j < i :: !Matches(table.breaks[j].location, file, line)
          invariant number == -1
        {
          if Matches(table.breaks[i].location, file, line) {
            FirstIsFound(table.breaks, file, line, i);
            number := table.breaks[i].number;
            break;
          }
          i := i + 1;
        }
        if number == -1 { NoneIsFound(table.breaks, file, line); }
      }
    }

    /** set_break for an existing breakpoint. */
    method UpdateBreak(bp: Breakpoint, activity: Activity) returns (done: bool)
      requires WellNumbered(table)
      modifies this
      ensures refusals >= old(refusals)
      ensures refusals == old(refusals) && FindBreak(old(table).breaks, bp.file, bp.line) >= 0 ==> done
      ensures !done && Sends(old(table), bp.Value(), activity) ==> table == old(table)
      ensures done && Sends(old(table), bp.Value(), activity) ==>
        var i := FindBreak(old(table).breaks, bp.file, bp.line);
        i >= 0 && table == old(table).(breaks := old(table).breaks[i := Apply(old(table).breaks[i], EditOf(bp.Value(), activity))])
    {
      hide Matches, Sendable, Parse, LineOf, EditOf, ReadSetup;
      var number;
      ghost var listed;
      number, listed := GetBreakNumber(bp.file, bp.line);
      if number == -1 {
        done := false;
        if !listed { refusals := refusals + 1; }
      } else {
        ghost var i := FindBreak(table.breaks, bp.file, bp.line);
        PlaceOfEntry(table, i);
        if Sends(table, bp.Value(), activity) { LineFits(bp.Value(), activity, number); }
        done := ExecSync(Truncate(LineOf(bp.Value(), activity, number), 999));
      }
    }

    /** remove_break */
    method RemoveBreak(bp: Breakpoint) returns (done: bool)
      requires WellNumbered(table)
      modifies this
      ensures refusals >= old(refusals)
      ensures refusals == old(refusals) && FindBreak(old(table).breaks, bp.file, bp.line) >= 0 ==> done
      ensures !done ==> table == old(table)
      ensures done ==>
        var i := FindBreak(old(table).breaks, bp.file, bp.line);
        i >= 0 && table == old(table).(breaks := Without(old(table).breaks, i))
    {
      hide Matches, Sendable, Parse, ReadSetup;
      var number;
      ghost var listed;
      number, listed := GetBreakNumber(bp.file, bp.line);
      if number == -1 {
        done := false;
        if !listed { refusals := refusals + 1; }
      } else {
        ghost var i := FindBreak(table.breaks, bp.file, bp.line);
        PlaceOfEntry(table, i);
        CommandsFit(number, 0);
        ParsesDelete(number);
        done := ExecSync(Truncate(DeleteLine(number), 99));
      }
    }
  }
}
