/**
 GDB as far as breakpoints go: a table of numbered breakpoints driven by the text of
 commands.  A command that GDB refuses leaves the table unchanged.
 */
module GdbMachine {
  import opened Common
  import opened Decimal
  import opened GdbText

  const MAX_NUMBER: nat := 0x7fff_ffff

  datatype GdbBreak = GdbBreak(number: nat, location: string, enabled: bool, condition: string, ignore: int)

  /**
   The breakpoints in the order of the table; `next` is the number of the next insertion.
   Some versions of GDB show locations with the quotes they were inserted with, some without.
   */
  datatype Table = Table(breaks: seq<GdbBreak>, next: nat, quotes: bool)

  function EmptyTable(quotes: bool): Table {
    Table([], 1, quotes)
  }

  datatype Edit = Ignore(count: int) | Condition(condition: string) | SetEnabled(enabled: bool)

  datatype Command = Insert(location: string, force: bool) | Change(number: int, edit: Edit) | Delete(number: int) | Other(line: string)

  // ----- The commands as dbm_gdb.c prints them

  function InsertLine(file: string, line: int, force: bool): string {
    "-break-insert " + (if force then "-f " else "") + "\"\\\"" + Escape(file) + "\\\":" + Int(line) + "\""
  }

  function AfterLine(number: int, count: int): string {
    "-break-after " + Int(number) + " " + Int(count)
  }

  function ConditionLine(number: int, condition: string): string {
    "-break-condition " + Int(number) + " " + condition
  }

  function EnableLine(number: int, enabled: bool): string {
    (if enabled then "-break-enable " else "-break-disable ") + Int(number)
  }

  function DeleteLine(number: int): string {
    "-break-delete " + Int(number)
  }

  // ----- How GDB reads them

  /** The word before the first blank, and what follows that blank. */
  function Word(s: string): (string, string) {
    if s == "" then ("", "")
    else if s[0] == ' ' then ("", s[1..])
    else
      var (w, rest) := Word(s[1..]);
      ([s[0]] + w, rest)
  }

  function ParseInsert(args: string): Option<Command> {
    var force := StartsWith(args, "-f ");
    var arg := if force then args[3..] else args;
    if !StartsWith(arg, "\"") then None
    else
      match ReadCString(arg[1..])
      case Some((location, "")) => Some(Insert(location, force))
      case _ => None
  }

  function Parse(line: string): Command {
    var (verb, args) := Word(line);
    if verb == "-break-insert" then
      match ParseInsert(args)
      case Some(insert) => insert
      case None => Other(line)
    else if verb == "-break-after" then Change(Atoi(Word(args).0), Ignore(Atoi(Word(args).1)))
    else if verb == "-break-condition" then Change(Atoi(Word(args).0), Condition(Word(args).1))
    else if verb == "-break-enable" then Change(Atoi(args), SetEnabled(true))
    else if verb == "-break-disable" then Change(Atoi(args), SetEnabled(false))
    else if verb == "-break-delete" then Delete(Atoi(args))
    else Other(line)
  }

  lemma {:induction false} WordOf(w: string, rest: string)
    requires ' ' !in w
    ensures Word(w + " " + rest) == (w, rest)
  {
    var s := w + " " + rest;
    if w == "" {
      assert s[0] == ' ' && s[1..] == rest;
    } else {
      assert s[0] == w[0] && s[1..] == w[1..] + " " + rest;
      assert w == [w[0]] + w[1..];
      WordOf(w[1..], rest);
    }
  }

  lemma NoBlankInInt(i: int)
    ensures ' ' !in Int(i)
  {
  }

  lemma EscapeNothing(s: string)
    requires '\\' !in s && '"' !in s
    ensures Escape(s) == s
  {
    if s != "" {
      assert s[0] in s;
      EscapeNothing(s[1..]);
    }
  }

  lemma EscapeQuote(rest: string)
    ensures Escape("\"" + rest) == "\\\"" + Escape(rest)
  {
    assert ("\"" + rest)[1..] == rest;
  }

  /** The quoted argument of -break-insert is the escaped location. */
  lemma InsertArgument(file: string, line: int)
    ensures "\\\"" + Escape(file) + "\\\":" + Int(line) == Escape(Location(file, line))
  {
    hide Escape, Int;
    var number := ":" + Int(line);
    assert Escape(number) == number by { IntHasNoSpecials(line); EscapeNothing(number); }
    EscapeQuote(file);
    EscapeQuote(number);
    EscapeConcat("\"" + file, "\"" + number);
    assert Location(file, line) == ("\"" + file) + ("\"" + number);
    assert "\\\"" + Escape(file) + "\\\":" + Int(line) == ("\\\"" + Escape(file)) + ("\\\"" + number);
  }

  lemma IntHasNoSpecials(i: int)
    ensures '\\' !in Int(i) && '"' !in Int(i)
  {
  }

  /** GDB keeps the location that the plugin meant. */
  lemma ParsesInsert(file: string, line: int, force: bool)
    ensures Parse(InsertLine(file, line, force)) == Insert(Location(file, line), force)
  {
    hide Location, Escape, Int;
    var content := "\\\"" + Escape(file) + "\\\":" + Int(line);
    InsertArgument(file, line);
    var flag := if force then "-f " else "";
    var arg := "\"" + content + "\"";
    assert InsertLine(file, line, force) == "-break-insert" + " " + (flag + arg);
    WordOf("-break-insert", flag + arg);
    ParsesArgument(Location(file, line), force);
    hide ParseInsert;
  }

  lemma ParsesArgument(location: string, force: bool)
    ensures ParseInsert((if force then "-f " else "") + ("\"" + Escape(location) + "\"")) == Some(Insert(location, force))
  {
    hide Escape, ReadCString;
    var flag := if force then "-f " else "";
    var arg := "\"" + Escape(location) + "\"";
    assert force ==> (flag + arg)[3..] == arg && (flag + arg)[..3] == "-f ";
    assert !force ==> flag + arg == arg && arg[0] == '"';
    ReadEscaped(location, "");
    assert arg[1..] == Escape(location) + "\"" + "";
    assert arg[..1] == "\"";
  }

  lemma ParsesAfter(number: int, count: int)
    ensures Parse(AfterLine(number, count)) == Change(number, Ignore(count))
  {
    hide Int, Atoi;
    assert AfterLine(number, count) == "-break-after" + " " + (Int(number) + " " + Int(count));
    WordOf("-break-after", Int(number) + " " + Int(count));
    NoBlankInInt(number);
    WordOf(Int(number), Int(count));
    AtoiInt(number);
    AtoiInt(count);
  }

  lemma ParsesCondition(number: int, condition: string)
    ensures Parse(ConditionLine(number, condition)) == Change(number, Condition(condition))
  {
    hide Int, Atoi;
    assert ConditionLine(number, condition) == "-break-condition" + " " + (Int(number) + " " + condition);
    WordOf("-break-condition", Int(number) + " " + condition);
    NoBlankInInt(number);
    WordOf(Int(number), condition);
    AtoiInt(number);
  }

  lemma ParsesEnable(number: int, enabled: bool)
    ensures Parse(EnableLine(number, enabled)) == Change(number, SetEnabled(enabled))
  {
    hide Int, Atoi;
    assert EnableLine(number, enabled) == (if enabled then "-break-enable" else "-break-disable") + " " + Int(number);
    WordOf("-break-enable", Int(number));
    WordOf("-break-disable", Int(number));
    AtoiInt(number);
  }

  lemma ParsesDelete(number: int)
    ensures Parse(DeleteLine(number)) == Delete(number)
  {
    hide Int, Atoi;
    assert DeleteLine(number) == "-break-delete" + " " + Int(number);
    WordOf("-break-delete", Int(number));
    AtoiInt(number);
  }

  // ----- What they do

  /** The next number is new. */
  ghost predicate NumbersBelow(t: Table) {
    forall i | 0 <= i < |t.breaks| :: t.breaks[i].number < t.next
  }

  ghost predicate WellNumbered(t: Table) {
    && t.next <= MAX_NUMBER
    && NumbersBelow(t)
    && (forall i, j | 0 <= i < j < |t.breaks| :: t.breaks[i].number < t.breaks[j].number)
  }

  /** The place of the breakpoint with a number, or -1. */
  function Place(breaks: seq<GdbBreak>, number: int): (i: int)
    ensures -1 <= i < |breaks|
    ensures i >= 0 ==> breaks[i].number == number
    ensures i == -1 ==> forall j | 0 <= j < |breaks| :: breaks[j].number != number
  {
    if breaks == [] then -1
    else if breaks[|breaks| - 1].number == number then |breaks| - 1
    else Place(breaks[..|breaks| - 1], number)
  }

  /** Commands that GDB may carry out in this state. */
  predicate Accepts(t: Table, c: Command) {
    match c
    case Insert(_, _) => t.next < MAX_NUMBER
    case Other(_) => true
    case Change(number, _) => Place(t.breaks, number) >= 0
    case Delete(number) => Place(t.breaks, number) >= 0
  }

  function Apply(g: GdbBreak, e: Edit): GdbBreak {
    match e
    case Ignore(count) => g.(ignore := count)
    case Condition(condition) => g.(condition := condition)
    case SetEnabled(enabled) => g.(enabled := enabled)
  }

  /** The location as it is listed. */
  function Listed(location: string, quotes: bool): string {
    if quotes then location else Unquoted(location)
  }

  /** The table with one more entry. */
  function Appended(t: Table, g: GdbBreak): Table {
    t.(breaks := t.breaks + [g], next := t.next + 1)
  }

  function Execute(t: Table, c: Command): Table {
    match c
    case Insert(location, _) => Appended(t, GdbBreak(t.next, Listed(location, t.quotes), true, "", 0))
    case Other(_) => t
    case Change(number, edit) =>
      var i := Place(t.breaks, number);
      if i < 0 then t else t.(breaks := t.breaks[i := Apply(t.breaks[i], edit)])
    case Delete(number) =>
      var i := Place(t.breaks, number);
      if i < 0 then t else t.(breaks := t.breaks[..i] + t.breaks[i + 1..])
  }

  /** Numbers stay distinct and below the next one. */
  lemma ExecuteWellNumbered(t: Table, c: Command)
    requires WellNumbered(t) && Accepts(t, c)
    ensures WellNumbered(Execute(t, c))
  {
  }

  /** A line that gdb_input_write_line passes on whole, newline included. */
  predicate Sendable(line: string) {
    |line| <= 998 && '\n' !in line
  }

  lemma ListedLocation(file: string, line: int, quotes: bool)
    ensures Listed(Location(file, line), quotes) == Shown(file, line, quotes)
  {
    hide Location, PlainLocation;
    UnquotedLocation(file, line);
  }
}
