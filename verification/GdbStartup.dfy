/**
 Starting a debuggee, dbm_gdb.c: the queue of commands that run() collects and its
 asynchronous execution by on_read_async_output().
 */
module GdbStartup {
  import opened Common
  import opened Decimal
  import opened BreakModel
  import opened GdbText
  import opened GdbMachine
  import opened GdbInferior
  import opened DbmGdb

  datatype QueueItem = QueueItem(command: string, errorMessage: Option<string>, formatErrorMessage: bool)

  /** What GDB writes back: a result record with its class, or any other record. */
  datatype Record = Result(klass: string) | OtherRecord

  datatype Phase = Starting | Running | Aborted

  // ----- The commands of a start-up

  function TargetLine(file: string): string {
    "-file-exec-and-symbols \"" + Escape(file) + "\""
  }

  function ConsoleLine(command: string): string {
    "-interpreter-exec " + ("console " + command)
  }

  function EnvironmentLine(name: string, value: string): string {
    "-gdb-set environment " + name + "=" + value
  }

  function SetupLines(file: string, commandline: string, lang: string): seq<string> {
    [ TargetLine(file),
      "-gdb-set target-async 1",
      ConsoleLine("\"set print null-stop\""),
      "-enable-pretty-printing",
      EnvironmentLine("LANG", lang),
      "-exec-arguments " + commandline ]
  }

  function EnvironmentLines(env: seq<(string, string)>): seq<string> {
    if env == [] then []
    else EnvironmentLines(env[..|env| - 1]) + [EnvironmentLine(env[|env| - 1].0, env[|env| - 1].1)]
  }

  /** The commands for the breakpoint that will get number `n`. */
  function OneBreakLines(b: Break, n: nat): seq<string> {
    [InsertLine(b.file, b.line, true)]
    + (if b.hits != 0 then [AfterLine(n, b.hits)] else [])
    + (if b.condition != "" then [ConditionLine(n, b.condition)] else [])
    + (if !b.enabled then [EnableLine(n, false)] else [])
  }

  function BreakLines(breaks: seq<Break>): seq<string> {
    if breaks == [] then []
    else BreakLines(breaks[..|breaks| - 1]) + OneBreakLines(breaks[|breaks| - 1], |breaks|)
  }

  function TerminalLine(terminal: string): string {
    "-inferior-tty-set " + terminal
  }

  function StartupLines(file: string, commandline: string, lang: string, env: seq<(string, string)>, breaks: seq<Break>, terminal: string)
      : seq<string> {
    SetupLines(file, commandline, lang) + EnvironmentLines(env) + BreakLines(breaks) + [TerminalLine(terminal)]
  }

  function Commands(queue: seq<QueueItem>): (lines: seq<string>)
    ensures |lines| == |queue|
    ensures forall i | 0 <= i < |queue| :: lines[i] == queue[i].command
  {
    seq(|queue|, i requires 0 <= i < |queue| => queue[i].command)
  }

  const FILES_LINE := "-file-list-exec-source-files"
  const EXEC_RUN := "-exec-run"
  const GDB_EXIT := "-gdb-exit"

  // ----- The module

  class Startup {
    var queue: seq<QueueItem>
    /** The command whose reply is awaited. */
    var current: nat
    var phase: Phase
    /** Everything written to GDB. */
    var sent: seq<string>
    /** How often stop() was called. */
    var stops: nat
    var reported: seq<QueueItem>

    constructor ()
      ensures queue == [] && sent == [] && stops == 0 && reported == [] && phase == Aborted && current == 0
    {
      queue, current, phase, sent, stops, reported := [], 0, Aborted, [], 0, [];
    }

    /** add_to_queue */
    method AddToQueue(command: string, errorMessage: Option<string>, formatErrorMessage: bool)
      modifies `queue
      ensures queue == old(queue) + [QueueItem(command, errorMessage, formatErrorMessage)]
      ensures Commands(queue) == Commands(old(queue)) + [command]
    {
      queue := queue + [QueueItem(command, errorMessage, formatErrorMessage)];
    }

    /** The commands of one breakpoint. */
    method AddBreak(b: Break, bpIndex: nat)
      modifies `queue
      ensures Commands(queue) == Commands(old(queue)) + OneBreakLines(b, bpIndex)
    {
      hide InsertLine, AfterLine, ConditionLine, EnableLine;
      ghost var lines := Commands(queue);
      var error := Some("Breakpoint at " + b.file + ":" + Int(b.line) + " cannot be set");
      AddToQueue(InsertLine(b.file, b.line, true), error, true);
      if b.hits != 0 {
        AddToQueue(AfterLine(bpIndex, b.hits), error, true);
      }
      if b.condition != "" {
        AddToQueue(ConditionLine(bpIndex, b.condition), error, true);
      }
      if !b.enabled {
        AddToQueue(EnableLine(bpIndex, false), error, true);
      }
    }

    /** The fixed part of the queue. */
    method AddSetup(file: string, commandline: string, lang: string)
      requires queue == []
      modifies `queue
      ensures Commands(queue) == SetupLines(file, commandline, lang)
    {
      hide EnvironmentLine, TargetLine, ConsoleLine;
      AddToQueue(TargetLine(file), Some("Error loading file"), false);
      AddToQueue("-gdb-set target-async 1", Some("Error configuring GDB"), false);
      AddToQueue(ConsoleLine("\"set print null-stop\""), Some("Error configuring GDB"), false);
      AddToQueue("-enable-pretty-printing", Some("Error configuring GDB"), false);
      AddToQueue(EnvironmentLine("LANG", lang), None, false);
      AddToQueue("-exec-arguments " + commandline, None, false);
    }

    method AddEnvironment(env: seq<(string, string)>)
      modifies `queue
      ensures Commands(queue) == Commands(old(queue)) + EnvironmentLines(env)
    {
      hide EnvironmentLine;
      var i := 0;
      while i < |env|
        invariant 0 <= i <= |env|
        invariant Commands(queue) == Commands(old(queue)) + EnvironmentLines(env[..i])
      {
        assert env[..i + 1][..i] == env[..i];
        AddToQueue(EnvironmentLine(env[i].0, env[i].1), None, false);
        i := i + 1;
      }
      assert env[..|env|] == env;
    }

    method AddBreaks(breaks: seq<Break>)
      modifies `queue
      ensures Commands(queue) == Commands(old(queue)) + BreakLines(breaks)
    {
      hide OneBreakLines;
      var bpIndex := 1;
      while bpIndex <= |breaks|
        invariant 1 <= bpIndex <= |breaks| + 1
        invariant Commands(queue) == Commands(old(queue)) + BreakLines(breaks[..bpIndex - 1])
      {
        assert breaks[..bpIndex][..bpIndex - 1] == breaks[..bpIndex - 1];
        AddBreak(breaks[bpIndex - 1], bpIndex);
        bpIndex := bpIndex + 1;
      }
      assert breaks[..|breaks|] == breaks;
    }

    /** run(), after GDB was spawned */
    method Run(file: string, commandline: string, lang: string, env: seq<(string, string)>, breaks: seq<Break>, terminal: string)
      modifies this
      ensures Commands(queue) == StartupLines(file, commandline, lang, env, breaks, terminal)
      ensures phase == Starting && current == 0 && stops == 0 && reported == [] && |queue| > 0
      ensures sent == [queue[0].command]
    {
      hide SetupLines, EnvironmentLines, BreakLines;
      queue, current, stops, reported := [], 0, 0, [];
      AddSetup(file, commandline, lang);
      AddEnvironment(env);
      AddBreaks(breaks);
      AddToQueue(TerminalLine(terminal), None, false);
      phase := Starting;
      sent := [queue[0].command];
    }

    /** on_read_async_output */
    method OnReadAsyncOutput(record: Record)
      requires phase == Starting && current < |queue|
      modifies this
      ensures record.OtherRecord? ==>
        phase == Starting && queue == old(queue) && current == old(current) && sent == old(sent) && stops == old(stops) && reported == old(reported)
      ensures record == Result("done") && old(current) + 1 < |old(queue)| ==>
        && phase == Starting && queue == old(queue) && current == old(current) + 1
        && sent == old(sent) + [queue[current].command] && stops == old(stops) && reported == old(reported)
      ensures record == Result("done") && old(current) + 1 == |old(queue)| ==>
        phase == Running && sent == old(sent) + [FILES_LINE, EXEC_RUN] && stops == old(stops) && reported == old(reported)
      ensures record.Result? && record.klass != "done" ==>
        && phase == Aborted && sent == old(sent) + [GDB_EXIT] && stops == old(stops) + 1
        && reported == old(reported) + if old(queue)[old(current)].errorMessage.Some? then [old(queue)[old(current)]] else []
    {
      if record.Result? {
        if record.klass == "done" {
          if current + 1 < |queue| {
            current := current + 1;
            sent := sent + [queue[current].command];
          } else {
            queue := [];
            UpdateFiles();
            sent := sent + [EXEC_RUN];
            phase := Running;
          }
        } else {
          if queue[current].errorMessage.Some? {
            reported := reported + [queue[current]];
          }
          queue := [];
          Stop();
          phase := Aborted;
        }
      }
    }

    /** update_files */
    method UpdateFiles()
      modifies `sent
      ensures sent == old(sent) + [FILES_LINE]
    {
      sent := sent + [FILES_LINE];
    }

    /** stop() */
    method Stop()
      modifies `sent, `stops
      ensures sent == old(sent) + [GDB_EXIT] && stops == old(stops) + 1
    {
      sent := sent + [GDB_EXIT];
      stops := stops + 1;
    }
  }

  // ----- What the commands do to GDB

  function ExecuteAll(t: Table, lines: seq<string>): Table {
    if lines == [] then t
    else Execute(ExecuteAll(t, lines[..|lines| - 1]), Parse(lines[|lines| - 1]))
  }

  /** The entry of a breakpoint with all its settings. */
  function Entry(b: Break, number: nat, quotes: bool): GdbBreak {
    GdbBreak(number, Shown(b.file, b.line, quotes), b.enabled, b.condition, b.hits)
  }

  function Entries(breaks: seq<Break>, quotes: bool): (entries: seq<GdbBreak>)
    ensures |entries| == |breaks|
    ensures forall k | 0 <= k < |breaks| :: entries[k] == Entry(breaks[k], k + 1, quotes)
  {
    seq(|breaks|, k requires 0 <= k < |breaks| => Entry(breaks[k], k + 1, quotes))
  }

  /** The table that has exactly the k-th breakpoint, with all its settings, at number k. */
  function BreakTable(breaks: seq<Break>, quotes: bool): Table {
    Table(Entries(breaks, quotes), |breaks| + 1, quotes)
  }

  lemma {:induction false} ExecuteAllConcat(t: Table, a: seq<string>, b: seq<string>)
    ensures ExecuteAll(t, a + b) == ExecuteAll(ExecuteAll(t, a), b)
    decreases |b|
  {
    if b == [] {
      assert a + b == a;
    } else {
      var n := |b| - 1;
      assert (a + b)[..|a + b| - 1] == a + b[..n];
      ExecuteAllConcat(t, a, b[..n]);
    }
  }

  lemma {:induction false} WordAlone(w: string)
    requires ' ' !in w
    ensures Word(w) == (w, "")
  {
    if w != "" {
      assert w[0] in w;
      WordAlone(w[1..]);
      assert w == [w[0]] + w[1..];
    }
  }

  lemma NoBreakCommand(verb: string, rest: string)
    requires ' ' !in verb
    requires verb !in ["-break-insert", "-break-after", "-break-condition", "-break-enable", "-break-disable", "-break-delete"]
    ensures Parse(verb + " " + rest) == Other(verb + " " + rest)
  {
    WordOf(verb, rest);
  }

  /** No breakpoint commands among these lines. */
  ghost predicate Harmless(lines: seq<string>) {
    forall i | 0 <= i < |lines| :: Parse(lines[i]).Other?
  }

  lemma {:induction false} HarmlessExecute(t: Table, lines: seq<string>)
    requires Harmless(lines)
    ensures ExecuteAll(t, lines) == t
    decreases |lines|
  {
    if lines != [] {
      HarmlessExecute(t, lines[..|lines| - 1]);
    }
  }

  lemma EnvironmentLineHarmless(name: string, value: string)
    ensures Parse(EnvironmentLine(name, value)).Other?
  {
    NoBreakCommand("-gdb-set", "environment " + name + "=" + value);
    assert EnvironmentLine(name, value) == "-gdb-set" + " " + ("environment " + name + "=" + value);
  }

  lemma SetupHarmless(file: string, commandline: string, lang: string)
    ensures Harmless(SetupLines(file, commandline, lang))
  {
    hide Parse, EnvironmentLine, TargetLine, ConsoleLine;
    TargetHarmless(file);
    AsyncHarmless();
    ConsoleHarmless("\"set print null-stop\"");
    PrettyPrintingHarmless();
    EnvironmentLineHarmless("LANG", lang);
    ArgumentsHarmless(commandline);
  }

  lemma AsyncHarmless()
    ensures Parse("-gdb-set target-async 1").Other?
  {
    hide Parse, Word;
    NoBreakCommand("-gdb-set", "target-async 1");
    assert "-gdb-set target-async 1" == "-gdb-set" + " " + "target-async 1";
  }

  lemma ConsoleHarmless(command: string)
    ensures Parse(ConsoleLine(command)).Other?
  {
    hide Parse, Word;
    NoBreakCommand("-interpreter-exec", "console " + command);
    assert ConsoleLine(command) == "-interpreter-exec" + " " + ("console " + command);
  }

  lemma ArgumentsHarmless(commandline: string)
    ensures Parse("-exec-arguments " + commandline).Other?
  {
    hide Parse, Word;
    NoBreakCommand("-exec-arguments", commandline);
    assert "-exec-arguments " + commandline == "-exec-arguments" + " " + commandline;
  }

  lemma TargetHarmless(file: string)
    ensures Parse(TargetLine(file)).Other?
  {
    var rest := "\"" + Escape(file) + "\"";
    NoBreakCommand("-file-exec-and-symbols", rest);
    assert TargetLine(file) == "-file-exec-and-symbols" + " " + rest;
  }

  lemma PrettyPrintingHarmless()
    ensures Parse("-enable-pretty-printing").Other?
  {
    hide Word;
    WordAlone("-enable-pretty-printing");
  }

  lemma {:induction false} EnvironmentHarmless(env: seq<(string, string)>)
    ensures Harmless(EnvironmentLines(env))
    decreases |env|
  {
    hide Parse, EnvironmentLine;
    if env != [] {
      EnvironmentHarmless(env[..|env| - 1]);
      EnvironmentLineHarmless(env[|env| - 1].0, env[|env| - 1].1);
    }
  }

  lemma TerminalHarmless(terminal: string)
    ensures Harmless([TerminalLine(terminal)])
  {
    NoBreakCommand("-inferior-tty-set", terminal);
    assert TerminalLine(terminal) == "-inferior-tty-set" + " " + terminal;
  }

  lemma FilesHarmless()
    ensures Sendable(FILES_LINE) && Parse(FILES_LINE).Other? && ReadSetup(FILES_LINE).NoSetup?
  {
    hide Word;
    WordAlone(FILES_LINE);
  }

  lemma ExecuteOne(t: Table, line: string)
    ensures ExecuteAll(t, [line]) == Execute(t, Parse(line))
  {
    assert [line][..0] == [];
    assert ExecuteAll(t, []) == t;
  }

  lemma ExecuteNothing(t: Table)
    ensures ExecuteAll(t, []) == t
  {
  }

  lemma InsertExecutes(t: Table, b: Break)
    ensures ExecuteAll(t, [InsertLine(b.file, b.line, true)]) == Appended(t, NewEntry(t, b))
  {
    hide Parse, InsertLine, Location, ExecuteAll, Listed, Shown;
    ExecuteOne(t, InsertLine(b.file, b.line, true));
    ParsesInsert(b.file, b.line, true);
    ListedLocation(b.file, b.line, t.quotes);
  }

  /** A setting of the newest entry, which needs a command only if it is not the default. */
  lemma SettingExecutes(t: Table, g: GdbBreak, b: Break, activity: Activity, needed: bool)
    requires NumbersBelow(t) && g.number == t.next
    requires !needed ==> Apply(g, EditOf(b, activity)) == g
    ensures ExecuteAll(Appended(t, g), if needed then [LineOf(b, activity, t.next)] else [])
      == Appended(t, Apply(g, EditOf(b, activity)))
  {
    hide Parse, Execute, ExecuteAll, AfterLine, ConditionLine, EnableLine;
    if needed {
      ExecuteOne(Appended(t, g), LineOf(b, activity, t.next));
      ParsesEnable(t.next, b.enabled);
      ParsesCondition(t.next, b.condition);
      ParsesAfter(t.next, b.hits);
      ChangeLast(t, g, EditOf(b, activity));
    } else {
      ExecuteNothing(Appended(t, g));
    }
  }

  /** The commands of one breakpoint leave an entry with all its settings. */
  lemma OneBreakExecutes(t: Table, b: Break)
    requires NumbersBelow(t)
    ensures ExecuteAll(t, OneBreakLines(b, t.next)) == Appended(t, Entry(b, t.next, t.quotes))
  {
    hide ExecuteAll, InsertLine, AfterLine, ConditionLine, EnableLine, Shown;
    var n := t.next;
    var l1 := [InsertLine(b.file, b.line, true)];
    var l2 := if b.hits != 0 then [AfterLine(n, b.hits)] else [];
    var l3 := if b.condition != "" then [ConditionLine(n, b.condition)] else [];
    var l4 := if !b.enabled then [EnableLine(n, false)] else [];
    var g := NewEntry(t, b);
    var g2 := g.(ignore := b.hits);
    var g3 := g2.(condition := b.condition);
    InsertExecutes(t, b);
    SettingExecutes(t, g, b, UpdateHitsCount, b.hits != 0);
    SettingExecutes(t, g2, b, UpdateCondition, b.condition != "");
    SettingExecutes(t, g3, b, UpdateEnable, !b.enabled);
    assert g3.(enabled := b.enabled) == Entry(b, n, t.quotes);
    ExecuteAllConcat(t, l1, l2);
    ExecuteAllConcat(t, l1 + l2, l3);
    ExecuteAllConcat(t, l1 + l2 + l3, l4);
  }

  /** The k-th breakpoint ends up, with all its settings, at number k. */
  lemma {:induction false} BreaksExecute(breaks: seq<Break>, quotes: bool)
    ensures ExecuteAll(EmptyTable(quotes), BreakLines(breaks)) == BreakTable(breaks, quotes)
    decreases |breaks|
  {
    hide OneBreakLines, ExecuteAll, Shown;
    if breaks == [] {
      ExecuteNothing(EmptyTable(quotes));
    } else {
      var n := |breaks| - 1;
      BreaksExecute(breaks[..n], quotes);
      OneBreakExecutes(BreakTable(breaks[..n], quotes), breaks[n]);
      ExecuteAllConcat(EmptyTable(quotes), BreakLines(breaks[..n]), OneBreakLines(breaks[n], n + 1));
      assert Entries(breaks, quotes) == Entries(breaks[..n], quotes) + [Entry(breaks[n], n + 1, quotes)];
    }
  }

  /** A start-up queue that GDB carries out completely leaves exactly the given breakpoints. */
  lemma StartupExecutes(file: string, commandline: string, lang: string, env: seq<(string, string)>, breaks: seq<Break>, terminal: string,
                        quotes: bool)
    ensures ExecuteAll(EmptyTable(quotes), StartupLines(file, commandline, lang, env, breaks, terminal)) == BreakTable(breaks, quotes)
  {
    hide ExecuteAll, SetupLines, EnvironmentLines, BreakLines, TerminalLine, Harmless, BreakTable;
    var a, e, l := SetupLines(file, commandline, lang), EnvironmentLines(env), BreakLines(breaks);
    var t := EmptyTable(quotes);
    SetupHarmless(file, commandline, lang);
    HarmlessExecute(t, a);
    EnvironmentHarmless(env);
    HarmlessExecute(t, e);
    BreaksExecute(breaks, quotes);
    TerminalHarmless(terminal);
    HarmlessExecute(BreakTable(breaks, quotes), [TerminalLine(terminal)]);
    ExecuteAllConcat(t, a, e);
    ExecuteAllConcat(t, a + e, l);
    ExecuteAllConcat(t, a + e + l, [TerminalLine(terminal)]);
  }

  // ----- What they tell GDB about the debuggee

  /** How a variable arrives: a name that has an equals sign itself is divided there. */
  function Effective(name: string, value: string): (string, string) {
    if '=' in name then Assignment(name + "=" + value) else (name, value)
  }

  /** The variables assigned one after another. */
  function AssignAll(m: map<string, string>, env: seq<(string, string)>): map<string, string>
    decreases |env|
  {
    if env == [] then m
    else
      var (name, value) := Effective(env[|env| - 1].0, env[|env| - 1].1);
      AssignAll(m, env[..|env| - 1])[name := value]
  }

  /** A debuggee that is ready to be started. */
  function ReadyInferior(file: string, commandline: string, lang: string, env: seq<(string, string)>, terminal: string): Inferior {
    Inferior(Some(file), commandline, AssignAll(map["LANG" := lang], env), Some(terminal),
             map["target-async" := "1"], ["set print null-stop"], true)
  }

  lemma ReadsProgram(file: string)
    ensures ReadSetup(TargetLine(file)) == Program(file)
  {
    hide Escape, CString, Word;
    var arg := "\"" + Escape(file) + "\"";
    assert TargetLine(file) == "-file-exec-and-symbols" + " " + arg;
    WordOf("-file-exec-and-symbols", arg);
    CStringRead(file);
  }

  lemma ReadsEnvironment(name: string, value: string)
    ensures ReadSetup(EnvironmentLine(name, value)) == Environment(Effective(name, value).0, Effective(name, value).1)
  {
    hide Word, Assignment;
    var assignment := name + "=" + value;
    assert EnvironmentLine(name, value) == "-gdb-set" + " " + ("environment" + " " + assignment);
    WordOf("-gdb-set", "environment" + " " + assignment);
    WordOf("environment", assignment);
    if '=' !in name { AssignmentRead(name, value); }
  }

  lemma ReadsTexts(text: string)
    ensures ReadSetup("-exec-arguments " + text) == Arguments(text)
    ensures ReadSetup(TerminalLine(text)) == Terminal(text)
  {
    hide Word, CString;
    assert "-exec-arguments " + text == "-exec-arguments" + " " + text;
    assert TerminalLine(text) == "-inferior-tty-set" + " " + text;
    WordOf("-exec-arguments", text);
    WordOf("-inferior-tty-set", text);
  }

  lemma ReadsSettings()
    ensures ReadSetup("-gdb-set target-async 1") == Setting("target-async", "1")
  {
    hide Word, CString;
    assert "-gdb-set target-async 1" == "-gdb-set" + " " + ("target-async" + " " + "1");
    WordOf("-gdb-set", "target-async" + " " + "1");
    WordOf("target-async", "1");
  }

  lemma ReadsPrettyPrinting()
    ensures ReadSetup("-enable-pretty-printing") == PrettyPrinting
  {
    hide Word, CString;
    WordAlone("-enable-pretty-printing");
  }

  lemma ReadsConsole(command: string)
    ensures ReadSetup(ConsoleLine("\"" + Escape(command) + "\"")) == Console(command)
  {
    hide Word, CString, Escape;
    var arg := "\"" + Escape(command) + "\"";
    assert ConsoleLine(arg) == "-interpreter-exec" + " " + ("console" + " " + arg);
    WordOf("-interpreter-exec", "console" + " " + arg);
    WordOf("console", arg);
    CStringRead(command);
  }

  lemma ReadsNullStop()
    ensures ReadSetup(ConsoleLine("\"set print null-stop\"")) == Console("set print null-stop")
  {
    hide ReadSetup, ConsoleLine, Escape;
    EscapeNothing("set print null-stop");
    ReadsConsole("set print null-stop");
    NullStopQuoted();
  }

  lemma NullStopQuoted()
    ensures "\"" + "set print null-stop" + "\"" == "\"set print null-stop\""
  {
  }

  lemma NoSetupCommand(verb: string, rest: string)
    requires verb in ["-break-insert", "-break-after", "-break-condition", "-break-enable", "-break-disable", "-break-delete"]
    ensures ReadSetup(verb + " " + rest) == NoSetup
  {
    hide Word;
    WordOf(verb, rest);
  }

  lemma BreakSetsNothing(b: Break, n: nat, i: Inferior)
    ensures SetUpAll(i, OneBreakLines(b, n)) == i
  {
    hide ReadSetup, Int, Escape;
    var arg := "\"\\\"" + Escape(b.file) + "\\\":" + Int(b.line) + "\"";
    assert InsertLine(b.file, b.line, true) == "-break-insert" + " " + ("-f " + arg);
    NoSetupCommand("-break-insert", "-f " + arg);
    assert AfterLine(n, b.hits) == "-break-after" + " " + (Int(n) + " " + Int(b.hits));
    NoSetupCommand("-break-after", Int(n) + " " + Int(b.hits));
    assert ConditionLine(n, b.condition) == "-break-condition" + " " + (Int(n) + " " + b.condition);
    NoSetupCommand("-break-condition", Int(n) + " " + b.condition);
    assert EnableLine(n, false) == "-break-disable" + " " + Int(n);
    NoSetupCommand("-break-disable", Int(n));
    hide InsertLine, AfterLine, ConditionLine, EnableLine;
    NothingSetUp(i, OneBreakLines(b, n));
  }

  lemma {:induction false} NothingSetUp(i: Inferior, lines: seq<string>)
    requires forall k | 0 <= k < |lines| :: ReadSetup(lines[k]) == NoSetup
    ensures SetUpAll(i, lines) == i
    decreases |lines|
  {
    hide ReadSetup;
    if lines != [] { NothingSetUp(i, lines[..|lines| - 1]); }
  }

  lemma {:induction false} BreaksSetNothing(breaks: seq<Break>, i: Inferior)
    ensures SetUpAll(i, BreakLines(breaks)) == i
    decreases |breaks|
  {
    hide OneBreakLines, SetUpAll;
    if breaks == [] {
      NothingSetUp(i, []);
    } else {
      var n := |breaks| - 1;
      BreaksSetNothing(breaks[..n], i);
      BreakSetsNothing(breaks[n], n + 1, i);
      SetUpConcat(i, BreakLines(breaks[..n]), OneBreakLines(breaks[n], n + 1));
    }
  }

  lemma {:induction false} EnvironmentSetsUp(env: seq<(string, string)>, i: Inferior)
    ensures SetUpAll(i, EnvironmentLines(env)) == i.(environment := AssignAll(i.environment, env))
    decreases |env|
  {
    hide SetUpAll, EnvironmentLine, ReadSetup, Effective;
    if env == [] {
      NothingSetUp(i, []);
    } else {
      var n := |env| - 1;
      EnvironmentSetsUp(env[..n], i);
      SetUpConcat(i, EnvironmentLines(env[..n]), [EnvironmentLine(env[n].0, env[n].1)]);
      SetUpOne(i.(environment := AssignAll(i.environment, env[..n])), EnvironmentLine(env[n].0, env[n].1));
      ReadsEnvironment(env[n].0, env[n].1);
    }
  }

  lemma SetupSetsUp(file: string, commandline: string, lang: string)
    ensures SetUpAll(NEW_INFERIOR, SetupLines(file, commandline, lang)) ==
      Inferior(Some(file), commandline, map["LANG" := lang], None, map["target-async" := "1"], ["set print null-stop"], true)
  {
    hide ReadSetup, TargetLine, EnvironmentLine, ConsoleLine;
    ReadsProgram(file);
    ReadsSettings();
    ReadsPrettyPrinting();
    ReadsNullStop();
    ReadsEnvironment("LANG", lang);
    ReadsTexts(commandline);
    var lines := SetupLines(file, commandline, lang);
    SixSteps(NEW_INFERIOR, lines);
  }

  lemma SixSteps(i: Inferior, lines: seq<string>)
    requires |lines| == 6
    ensures SetUpAll(i, lines) == SetUp(SetUp(SetUp(SetUp(SetUp(SetUp(i,
      ReadSetup(lines[0])), ReadSetup(lines[1])), ReadSetup(lines[2])), ReadSetup(lines[3])), ReadSetup(lines[4])), ReadSetup(lines[5]))
  {
    hide ReadSetup, SetUp, SetUpAll;
    assert lines[..6] == lines && lines[..0] == [];
    NothingSetUp(i, []);
    SetUpNext(i, lines, 0);
    SetUpNext(i, lines, 1);
    SetUpNext(i, lines, 2);
    SetUpNext(i, lines, 3);
    SetUpNext(i, lines, 4);
    SetUpNext(i, lines, 5);
  }

  /** A start-up queue that GDB carries out completely sets up exactly the given debuggee. */
  lemma StartupSetsUp(file: string, commandline: string, lang: string, env: seq<(string, string)>, breaks: seq<Break>, terminal: string)
    ensures SetUpAll(NEW_INFERIOR, StartupLines(file, commandline, lang, env, breaks, terminal))
      == ReadyInferior(file, commandline, lang, env, terminal)
  {
    hide SetUpAll, SetupLines, EnvironmentLines, BreakLines, TerminalLine, ReadSetup, AssignAll;
    var a, e, l, t := SetupLines(file, commandline, lang), EnvironmentLines(env), BreakLines(breaks), [TerminalLine(terminal)];
    var i := SetUpAll(NEW_INFERIOR, a);
    SetupSetsUp(file, commandline, lang);
    EnvironmentSetsUp(env, i);
    var j := SetUpAll(i, e);
    BreaksSetNothing(breaks, j);
    SetUpOne(j, TerminalLine(terminal));
    ReadsTexts(terminal);
    SetUpConcat(NEW_INFERIOR, a, e);
    SetUpConcat(NEW_INFERIOR, a + e, l);
    SetUpConcat(NEW_INFERIOR, a + e + l, t);
  }

  // ----- Running the queue

  ghost predicate Long(lines: seq<string>) {
    forall i | 0 <= i < |lines| :: |lines[i]| > |EXEC_RUN|
  }

  lemma {:induction false} EnvironmentLong(env: seq<(string, string)>)
    ensures Long(EnvironmentLines(env))
    decreases |env|
  {
    if env != [] { EnvironmentLong(env[..|env| - 1]); }
  }

  lemma {:induction false} BreaksLong(breaks: seq<Break>)
    ensures Long(BreakLines(breaks))
    decreases |breaks|
  {
    hide Escape, Int;
    if breaks != [] { BreaksLong(breaks[..|breaks| - 1]); }
  }

  lemma SetupLong(file: string, commandline: string, lang: string)
    ensures Long(SetupLines(file, commandline, lang))
  {
    hide Escape;
  }

  /** No queued command is the one that starts the debuggee, or the one that ends GDB. */
  lemma NeverRuns(file: string, commandline: string, lang: string, env: seq<(string, string)>, breaks: seq<Break>, terminal: string)
    ensures EXEC_RUN !in StartupLines(file, commandline, lang, env, breaks, terminal)
    ensures GDB_EXIT !in StartupLines(file, commandline, lang, env, breaks, terminal)
  {
    hide SetupLines, EnvironmentLines, BreakLines;
    SetupLong(file, commandline, lang);
    EnvironmentLong(env);
    BreaksLong(breaks);
    var lines := StartupLines(file, commandline, lang, env, breaks, terminal);
    assert Long(lines);
  }

  /** All `lines` were sent and answered "done"; the debuggee was started. */
  ghost predicate Started(m: Startup, lines: seq<string>)
    reads m
  {
    m.phase == Running && m.sent == lines + [FILES_LINE, EXEC_RUN] && m.stops == 0
  }

  /** Command number `j` was the first that failed; nothing but the exit command followed. */
  ghost predicate Failed(m: Startup, lines: seq<string>, j: nat)
    reads m
  {
    j < |lines| && m.phase == Aborted && m.sent == lines[..j + 1] + [GDB_EXIT] && m.stops == 1
  }

  lemma ExecuteNext(t: Table, lines: seq<string>, j: nat)
    requires j < |lines|
    ensures ExecuteAll(t, lines[..j + 1]) == Execute(ExecuteAll(t, lines[..j]), Parse(lines[j]))
  {
    assert lines[..j + 1][..j] == lines[..j];
  }

  /** All lines reach GDB as they are. */
  ghost predicate AllSendable(lines: seq<string>) {
    forall i | 0 <= i < |lines| :: Sendable(lines[i])
  }

  /** What GDB has after these lines, if they reach it as they are. */
  ghost predicate Carried(t: Table, i: Inferior, t': Table, i': Inferior, lines: seq<string>, done: nat) {
    AllSendable(lines) && done <= |lines| ==>
      t' == ExecuteAll(t, lines[..done]) && WellNumbered(t') && i' == SetUpAll(i, lines[..done])
  }

  lemma CarriedNext(t: Table, i: Inferior, t': Table, i': Inferior, t'': Table, i'': Inferior, lines: seq<string>, done: nat)
    requires Carried(t, i, t', i', lines, done) && done < |lines|
    requires Sendable(lines[done]) ==> Accepts(t', Parse(lines[done])) && t'' == Execute(t', Parse(lines[done]))
    requires Sendable(lines[done]) ==> i'' == SetUp(i', ReadSetup(lines[done]))
    ensures Carried(t, i, t'', i'', lines, done + 1)
  {
    hide Parse, Execute, ExecuteAll, Sendable, WellNumbered, Accepts, SetUp, SetUpAll, ReadSetup;
    if AllSendable(lines) {
      ExecuteNext(t, lines, done);
      SetUpNext(i, lines, done);
      ExecuteWellNumbered(t', Parse(lines[done]));
    }
  }

  /**
   The main loop's part: replies of GDB reach on_read_async_output until the debuggee runs
   or the start-up was aborted.  `done` commands succeeded.
   */
  method ExecuteQueue(m: Startup, gdb: Gdb, ghost lines: seq<string>) returns (ghost done: nat)
    requires m.phase == Starting && m.current == 0 && m.stops == 0 && |lines| > 0
    requires Commands(m.queue) == lines && m.sent == [m.queue[0].command]
    requires WellNumbered(gdb.table)
    modifies m, gdb
    ensures done <= |lines| && Carried(old(gdb.table), old(gdb.inferior), gdb.table, gdb.inferior, lines, done)
    ensures if done == |lines| then Started(m, lines) else Failed(m, lines, done)
  {
    hide Parse, Execute, ExecuteAll, Sendable, WellNumbered, Accepts, Carried, SetUp, ReadSetup;
    done := 0;
    CarriedNothing(gdb.table, gdb.inferior, lines);
    while m.phase == Starting
      invariant done <= |lines| && Carried(old(gdb.table), old(gdb.inferior), gdb.table, gdb.inferior, lines, done)
      invariant m.phase == Starting ==>
        && done < |lines| && m.current == done && m.stops == 0
        && Commands(m.queue) == lines && m.sent == lines[..done + 1]
      invariant m.phase != Starting ==> if done == |lines| then Started(m, lines) else Failed(m, lines, done)
      decreases m.phase == Starting, |lines| - done
    {
      var noise: nat := *;
      while noise > 0
        modifies m
        invariant m.phase == Starting && m.current == done && m.stops == 0
        invariant Commands(m.queue) == lines && m.sent == lines[..done + 1]
      {
        m.OnReadAsyncOutput(OtherRecord);
        noise := noise - 1;
      }
      ghost var t, i := gdb.table, gdb.inferior;
      var ok := gdb.ExecSync(m.queue[m.current].command);
      var klass: string := *;
      m.OnReadAsyncOutput(Result(if ok then "done" else if klass == "done" then "error" else klass));
      if ok {
        CarriedNext(old(gdb.table), old(gdb.inferior), t, i, gdb.table, gdb.inferior, lines, done);
        done := done + 1;
        if m.phase == Running { ListFiles(gdb); }
      } else {
        CarriedStill(old(gdb.table), old(gdb.inferior), t, i, gdb.table, gdb.inferior, lines, done);
      }
    }
  }

  lemma CarriedNothing(t: Table, i: Inferior, lines: seq<string>)
    requires WellNumbered(t)
    ensures Carried(t, i, t, i, lines, 0)
  {
    hide WellNumbered;
    assert lines[..0] == [];
    ExecuteNothing(t);
    NothingSetUp(i, []);
  }

  lemma CarriedStill(t: Table, i: Inferior, t': Table, i': Inferior, t'': Table, i'': Inferior, lines: seq<string>, done: nat)
    requires Carried(t, i, t', i', lines, done) && done < |lines| && (Sendable(lines[done]) ==> t'' == t' && i'' == i')
    ensures Carried(t, i, t'', i'', lines, done)
  {
    hide ExecuteAll, WellNumbered, Sendable, SetUpAll;
  }

  /** GDB's side of update_files. */
  method ListFiles(gdb: Gdb)
    modifies gdb
    ensures gdb.table == old(gdb.table) && gdb.inferior == old(gdb.inferior)
  {
    hide Sendable, Parse, ReadSetup;
    FilesHarmless();
    var listed := gdb.ExecSync(FILES_LINE);
  }

  /**
   Starting a debuggee: unless a command fails, GDB ends up with exactly the k-th
   breakpoint at number k, the debuggee has the given program, arguments, environment and
   terminal, and it is started once, after all replies.
   */
  method StartDebuggee(m: Startup, gdb: Gdb, file: string, commandline: string, lang: string,
                       env: seq<(string, string)>, breaks: seq<Break>, terminal: string)
      returns (ghost done: nat)
    modifies m, gdb
    ensures var lines := StartupLines(file, commandline, lang, env, breaks, terminal);
      && (if done == |lines| then Started(m, lines) else Failed(m, lines, done))
      && Carried(EmptyTable(old(gdb.table.quotes)), NEW_INFERIOR, gdb.table, gdb.inferior, lines, done)
      && (AllSendable(lines) && done == |lines| ==>
            && gdb.table == BreakTable(breaks, old(gdb.table.quotes)) && WellNumbered(gdb.table)
            && gdb.inferior == ReadyInferior(file, commandline, lang, env, terminal))
  {
    hide StartupLines, ExecuteAll, AllSendable, BreakTable, SetUpAll, ReadyInferior;
    ghost var lines := StartupLines(file, commandline, lang, env, breaks, terminal);
    gdb.Spawn();
    m.Run(file, commandline, lang, env, breaks, terminal);
    done := ExecuteQueue(m, gdb, lines);
    if done == |lines| {
      assert lines[..done] == lines;
      StartupExecutes(file, commandline, lang, env, breaks, terminal, old(gdb.table.quotes));
      StartupSetsUp(file, commandline, lang, env, breaks, terminal);
    }
  }
}
