/**
 The text that travels between the debugger plugin and GDB about breakpoints:
 escaping, locations and the breakpoint commands of dbm_gdb.c, and how GDB reads them
 ("GDB/MI Input Syntax" in the GDB manual).
 */
module GdbText {
  import opened Common
  import opened Decimal

  // ----- escape_string

  function EscapeChar(c: char): string {
    if c == '\\' || c == '"' then ['\\', c] else [c]
  }

  function Escape(s: string): (e: string)
    ensures |s| <= |e| <= 2 * |s|
  {
    if s == "" then "" else EscapeChar(s[0]) + Escape(s[1..])
  }

  lemma {:induction false} EscapeConcat(a: string, b: string)
    ensures Escape(a + b) == Escape(a) + Escape(b)
  {
    if a == "" {
      assert a + b == b;
    } else {
      assert (a + b)[0] == a[0] && (a + b)[1..] == a[1..] + b;
      EscapeConcat(a[1..], b);
    }
  }

  lemma EscapeSnoc(s: string, i: nat)
    requires i < |s|
    ensures Escape(s[..i + 1]) == Escape(s[..i]) + EscapeChar(s[i])
  {
    assert s[..i + 1] == s[..i] + [s[i]];
    EscapeConcat(s[..i], [s[i]]);
    assert Escape([s[i]]) == EscapeChar(s[i]) + Escape([s[i]][1..]);
  }

  lemma {:induction false} EscapeNoNul(s: string)
    requires '\0' !in s
    ensures '\0' !in Escape(s)
  {
    if s != "" {
      assert s[0] in s;
      EscapeNoNul(s[1..]);
    }
  }

  /** `*p++ = c` */
  method WriteChar(buffer: array<char>, p: nat, c: char) returns (next: nat)
    requires p < buffer.Length
    modifies buffer
    ensures next == p + 1 && buffer[..next] == old(buffer[..p]) + [c]
  {
    buffer[p] := c;
    next := p + 1;
  }

  /** The body of the loop of escape_string. */
  method WriteEscaped(buffer: array<char>, p: nat, c: char) returns (next: nat)
    requires p + 1 < buffer.Length
    modifies buffer
    ensures next <= p + 2 && buffer[..next] == old(buffer[..p]) + EscapeChar(c)
  {
    next := p;
    if c == '\\' || c == '"' {
      next := WriteChar(buffer, next, '\\');
    }
    next := WriteChar(buffer, next, c);
  }

  /**
   escape_string: fills a buffer of 2n + 1 characters; `length` is what strlen of the
   result gives.  That no write is out of bounds is part of what is verified.
   */
  method EscapeString(str: string) returns (buffer: array<char>, length: nat)
    requires '\0' !in str
    ensures fresh(buffer) && buffer.Length == 2 * |str| + 1
    ensures length < buffer.Length && buffer[length] == '\0' && '\0' !in buffer[..length]
    ensures buffer[..length] == Escape(str)
  {
    buffer := new char[2 * |str| + 1];
    var p, i := 0, 0;
    while i < |str|
      invariant 0 <= i <= |str| && 0 <= p <= 2 * i
      invariant buffer[..p] == Escape(str[..i])
    {
      hide Escape, EscapeChar;
      EscapeSnoc(str, i);
      p := WriteEscaped(buffer, p, str[i]);
      i := i + 1;
    }
    assert str[..i] == str;
    EscapeNoNul(str);
    buffer[p] := '\0';
    length := p;
  }

  // ----- How GDB reads a quoted argument

  function Unescaped(c: char): char {
    if c == 'n' then '\n' else if c == 't' then '\t' else if c == 'r' then '\r' else c
  }

  /** Reads a c-string after its opening quote: the content and what follows the closing quote. */
  function ReadCString(s: string): Option<(string, string)> {
    if s == "" then None
    else if s[0] == '"' then Some(("", s[1..]))
    else if s[0] == '\\' then
      if |s| == 1 then None
      else
        match ReadCString(s[2..])
        case None => None
        case Some((content, rest)) => Some(([Unescaped(s[1])] + content, rest))
    else
      match ReadCString(s[1..])
      case None => None
      case Some((content, rest)) => Some(([s[0]] + content, rest))
  }

  /** Escaping and reading are inverse. */
  lemma {:induction false} ReadEscaped(s: string, rest: string)
    ensures ReadCString(Escape(s) + "\"" + rest) == Some((s, rest))
  {
    var text := Escape(s) + "\"" + rest;
    if s == "" {
      assert text == "\"" + rest;
      assert text[1..] == rest;
    } else {
      ReadEscaped(s[1..], rest);
      var tail := Escape(s[1..]) + "\"" + rest;
      assert text == EscapeChar(s[0]) + tail;
      assert s == [s[0]] + s[1..];
      if s[0] == '\\' || s[0] == '"' {
        assert text[2..] == tail && text[1] == s[0];
      } else {
        assert text[1..] == tail;
      }
    }
  }

  // ----- Locations

  /** The location of an inserted breakpoint as GDB keeps it. */
  function Location(file: string, line: int): string {
    "\"" + file + "\":" + Int(line)
  }

  /** The same location without quotes around the file name. */
  function PlainLocation(file: string, line: int): string {
    file + ":" + Int(line)
  }

  /** strrchr: the last place of `c`, or -1. */
  function LastIndex(s: string, c: char): (k: int)
    ensures -1 <= k < |s|
    ensures k >= 0 ==> s[k] == c
    ensures forall i | k < i < |s| :: s[i] != c
  {
    if s == "" then -1
    else if s[|s| - 1] == c then |s| - 1
    else LastIndex(s[..|s| - 1], c)
  }

  /** get_break_number: does a table entry's location stand for `file`:`line`? */
  predicate Matches(location: string, file: string, line: int) {
    var colon := LastIndex(location, ':');
    && colon >= 0
    && Atoi(location[colon + 1..]) == line
    && (if location[0] == '"' && colon > 2 then location[1..colon - 1] else location[..colon]) == file
  }

  lemma NoColonInInt(i: int)
    ensures ':' !in Int(i)
  {
  }

  lemma JoinedAt(prefix: string, number: string, k: nat)
    requires |prefix| < k <= |prefix| + |number|
    ensures (prefix + ":" + number)[k] in number
  {
    assert (prefix + ":" + number)[k] == number[k - |prefix| - 1];
  }

  lemma ColonSplits(prefix: string, number: string)
    ensures var s := prefix + ":" + number; s[|prefix|] == ':' && s[|prefix| + 1..] == number && s[..|prefix|] == prefix
  {
    var head := prefix + ":";
    assert (head + number)[|head|..] == number;
    assert (head + number)[..|prefix|] == head[..|prefix|] == prefix;
  }

  lemma LastColon(prefix: string, number: string)
    requires ':' !in number
    ensures var s := prefix + ":" + number;
      LastIndex(s, ':') == |prefix| && s[|prefix| + 1..] == number && s[..|prefix|] == prefix
  {
    hide LastIndex;
    ColonSplits(prefix, number);
    var s := prefix + ":" + number;
    var k := LastIndex(s, ':');
    if k > |prefix| {
      JoinedAt(prefix, number, k);
    }
  }

  lemma AtoiInt(i: int)
    ensures Atoi(Int(i)) == i
  {
    AtoiOfInt(i, "");
    assert Int(i) + "" == Int(i);
  }

  /**
   Looking a printed location up recovers exactly its file and line: the location of a
   nonempty file name matches that file and line and nothing else.
   */
  lemma LocationRecovered(file: string, line: int, f: string, l: int)
    ensures file != "" ==> (Matches(Location(file, line), f, l) <==> f == file && l == line)
    ensures file == "" ==> !Matches(Location(file, line), file, line)
  {
    hide Int, Atoi, LastIndex;
    NoColonInInt(line);
    AtoiInt(line);
    var quoted := "\"" + file + "\"";
    var s := Location(file, line);
    assert s == quoted + ":" + Int(line);
    LastColon(quoted, Int(line));
    assert s[0] == '"';
    assert s[1..|quoted| - 1] == file;
    if file == "" { assert |s[..|quoted|]| == 2; }
  }

  /** A name that get_break_number takes for a quoted one. */
  predicate LooksQuoted(file: string) {
    |file| > 2 && file[0] == '"'
  }

  /**
   A location shown without quotes is recovered exactly, unless the name looks quoted itself:
   then it does not even match its own file and line.
   */
  lemma PlainLocationRecovered(file: string, line: int, f: string, l: int)
    ensures !LooksQuoted(file) ==> (Matches(PlainLocation(file, line), f, l) <==> f == file && l == line)
    ensures LooksQuoted(file) ==> !Matches(PlainLocation(file, line), file, line)
  {
    hide Int, Atoi, LastIndex;
    NoColonInInt(line);
    AtoiInt(line);
    var s := PlainLocation(file, line);
    LastColon(file, Int(line));
    if LooksQuoted(file) {
      assert |s[1..|file| - 1]| == |file| - 2;
    }
  }

  /** How a GDB that does or does not keep the quotes shows a location. */
  function Shown(file: string, line: int, quotes: bool): string {
    if quotes then Location(file, line) else PlainLocation(file, line)
  }

  /** A shown location stands for exactly its own file and line. */
  predicate ShowsPlace(location: string, file: string, line: int) {
    || (location == Location(file, line) && file != "")
    || (location == PlainLocation(file, line) && !LooksQuoted(file))
  }

  lemma ShownIsFound(location: string, file: string, line: int, f: string, l: int)
    requires ShowsPlace(location, file, line)
    ensures Matches(location, f, l) <==> f == file && l == line
  {
    hide Matches, Location, PlainLocation, LooksQuoted;
    LocationRecovered(file, line, f, l);
    PlainLocationRecovered(file, line, f, l);
  }

  lemma NotShownIsLost(file: string, line: int, quotes: bool)
    requires !ShowsPlace(Shown(file, line, quotes), file, line)
    ensures !Matches(Shown(file, line, quotes), file, line)
  {
    hide Matches, Location, PlainLocation, LooksQuoted;
    LocationRecovered(file, line, file, line);
    PlainLocationRecovered(file, line, file, line);
  }

  /** Which names can be found again, by how GDB shows them. */
  lemma ShowsPlaceExactly(file: string, line: int, quotes: bool)
    ensures ShowsPlace(Shown(file, line, quotes), file, line) <==> if quotes then file != "" else !LooksQuoted(file)
  {
    hide Int;
    assert |Location(file, line)| == |PlainLocation(file, line)| + 2;
  }

  /** The quotes are taken from the file name of a location. */
  function Unquoted(location: string): string {
    var colon := LastIndex(location, ':');
    if colon > 1 && location[0] == '"' && location[colon - 1] == '"' then location[1..colon - 1] + location[colon..] else location
  }

  lemma UnquotedLocation(file: string, line: int)
    ensures Unquoted(Location(file, line)) == PlainLocation(file, line)
  {
    hide Int, LastIndex;
    NoColonInInt(line);
    var quoted := "\"" + file + "\"";
    LastColon(quoted, Int(line));
    var s := Location(file, line);
    assert s == quoted + ":" + Int(line);
    assert s[|quoted|..] == ":" + s[|quoted| + 1..];
    assert s[1..|quoted| - 1] == quoted[1..|quoted| - 1] == file;
  }
}
