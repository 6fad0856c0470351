/**
 What GDB knows about the debuggee: the program, its arguments, environment and terminal, and
 GDB's own settings, driven by the text of commands.
 */
module GdbInferior {
  import opened Common
  import opened GdbText
  import opened GdbMachine

  datatype Inferior = Inferior(
    program: Option<string>, arguments: string, environment: map<string, string>, terminal: Option<string>,
    /** -gdb-set of anything but the environment, and what was given to the command line interpreter. */
    settings: map<string, string>, console: seq<string>, prettyPrinting: bool)

  const NEW_INFERIOR := Inferior(None, "", map[], None, map[], [], false)

  datatype Setup =
    | Program(file: string)
    | Arguments(text: string)
    | Environment(name: string, value: string)
    | Terminal(device: string)
    | Setting(name: string, value: string)
    | Console(command: string)
    | PrettyPrinting
    | NoSetup

  // ----- How GDB reads the lines

  /** An assignment is divided at its first equals sign. */
  function Assignment(s: string): (r: (string, string))
    ensures '=' !in r.0
    ensures s == r.0 + "=" + r.1 || (s == r.0 && r.1 == "")
  {
    if s == "" then ("", "")
    else if s[0] == '=' then
      assert s == "" + "=" + s[1..];
      ("", s[1..])
    else
      var (name, value) := Assignment(s[1..]);
      assert s == [s[0]] + s[1..];
      ([s[0]] + name, value)
  }

  /** An argument that is one c-string and nothing else. */
  function CString(s: string): Option<string> {
    if !StartsWith(s, "\"") then None
    else
      match ReadCString(s[1..])
      case Some((text, "")) => Some(text)
      case _ => None
  }

  function ReadSetting(args: string): Setup {
    var (name, value) := Word(args);
    if name == "environment" then
      var (variable, text) := Assignment(value);
      Environment(variable, text)
    else Setting(name, value)
  }

  function ReadSetup(line: string): Setup {
    var (verb, args) := Word(line);
    if verb == "-file-exec-and-symbols" then
      match CString(args)
      case Some(file) => Program(file)
      case None => NoSetup
    else if verb == "-exec-arguments" then Arguments(args)
    else if verb == "-inferior-tty-set" then Terminal(args)
    else if verb == "-gdb-set" then ReadSetting(args)
    else if verb == "-interpreter-exec" && Word(args).0 == "console" then
      match CString(Word(args).1)
      case Some(command) => Console(command)
      case None => NoSetup
    else if verb == "-enable-pretty-printing" then PrettyPrinting
    else NoSetup
  }

  function SetUp(i: Inferior, s: Setup): Inferior {
    match s
    case Program(file) => i.(program := Some(file))
    case Arguments(text) => i.(arguments := text)
    case Environment(name, value) => i.(environment := i.environment[name := value])
    case Terminal(device) => i.(terminal := Some(device))
    case Setting(name, value) => i.(settings := i.settings[name := value])
    case Console(command) => i.(console := i.console + [command])
    case PrettyPrinting => i.(prettyPrinting := true)
    case NoSetup => i
  }

  function SetUpAll(i: Inferior, lines: seq<string>): Inferior
    decreases |lines|
  {
    if lines == [] then i else SetUp(SetUpAll(i, lines[..|lines| - 1]), ReadSetup(lines[|lines| - 1]))
  }

  lemma {:induction false} SetUpConcat(i: Inferior, a: seq<string>, b: seq<string>)
    ensures SetUpAll(i, a + b) == SetUpAll(SetUpAll(i, a), b)
    decreases |b|
  {
    hide ReadSetup, SetUp;
    if b == [] {
      assert a + b == a;
    } else {
      assert (a + b)[..|a + b| - 1] == a + b[..|b| - 1];
      SetUpConcat(i, a, b[..|b| - 1]);
    }
  }

  lemma SetUpOne(i: Inferior, line: string)
    ensures SetUpAll(i, [line]) == SetUp(i, ReadSetup(line))
  {
    assert [line][..0] == [];
    assert SetUpAll(i, []) == i;
  }

  lemma SetUpNext(i: Inferior, lines: seq<string>, j: nat)
    requires j < |lines|
    ensures SetUpAll(i, lines[..j + 1]) == SetUp(SetUpAll(i, lines[..j]), ReadSetup(lines[j]))
  {
    assert lines[..j + 1][..j] == lines[..j];
  }

  /** A name without an equals sign is read back with everything that follows it. */
  lemma {:induction false} AssignmentRead(name: string, value: string)
    requires '=' !in name
    ensures Assignment(name + "=" + value) == (name, value)
  {
    var s := name + "=" + value;
    if name == "" {
      assert s[0] == '=' && s[1..] == value;
    } else {
      assert name[0] in name && name == [name[0]] + name[1..];
      assert s[0] == name[0] && s[1..] == name[1..] + "=" + value;
      AssignmentRead(name[1..], value);
    }
  }

  lemma CStringRead(text: string)
    ensures CString("\"" + Escape(text) + "\"") == Some(text)
  {
    hide Escape, ReadCString;
    var s := "\"" + Escape(text) + "\"";
    ReadEscaped(text, "");
    assert s[1..] == Escape(text) + "\"" + "" && s[..1] == "\"";
  }
}
