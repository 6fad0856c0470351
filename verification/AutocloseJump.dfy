/**
 The jump target of automatically closed brackets, autoclose.c: after closing, Tab puts the
 caret behind what was inserted.  There is no selection, and the option is switched on.
 */
module AutocloseJump {
  import opened Common

  /** The settings that auto_close_chars reads; `pairs` has the enabled characters. */
  datatype Config = Config(
    pairs: map<char, (char, char)>, closeFunctions: bool, suppressDoubling: bool, commentsEnabled: bool, deletePairingBrace: bool)

  /** Some of the pairs are enabled. */
  predicate IsConfig(c: Config) {
    forall ch | ch in c.pairs :: ch in PAIRS && c.pairs[ch] == PAIRS[ch]
  }

  // ----- Text

  function NewLines(s: string): nat {
    if s == "" then 0 else NewLines(s[..|s| - 1]) + if s[|s| - 1] == '\n' then 1 else 0
  }

  /** sci_get_line_from_position */
  function LineAt(text: string, pos: nat): nat
    requires pos <= |text|
  {
    NewLines(text[..pos])
  }

  lemma {:induction false} NewLinesConcat(a: string, b: string)
    ensures NewLines(a + b) == NewLines(a) + NewLines(b)
    decreases |b|
  {
    if b == "" {
      assert a + b == a;
    } else {
      assert (a + b)[..|a + b| - 1] == a + b[..|b| - 1];
      NewLinesConcat(a, b[..|b| - 1]);
    }
  }

  lemma {:induction false} NoNewLines(s: string)
    ensures NewLines(s) == 0 <==> '\n' !in s
  {
    if s != "" {
      NoNewLines(s[..|s| - 1]);
      assert s == s[..|s| - 1] + [s[|s| - 1]];
    }
  }

  /** Two positions are on one line exactly when there is no line end between them. */
  lemma SameLine(text: string, a: nat, b: nat)
    requires a <= b <= |text|
    ensures LineAt(text, a) <= LineAt(text, b)
    ensures LineAt(text, a) == LineAt(text, b) <==> '\n' !in text[a..b]
  {
    assert text[..b] == text[..a] + text[a..b];
    NewLinesConcat(text[..a], text[a..b]);
    NoNewLines(text[a..b]);
  }

  /** sci_get_char_at; nothing outside the text. */
  function CharIn(text: string, pos: int): char {
    if 0 <= pos < |text| then text[pos] else '\0'
  }

  /** sci_get_line_end_position of the line that `pos` is in */
  function LineEnd(text: string, pos: nat): (end: nat)
    requires pos <= |text|
    ensures pos <= end <= |text|
    ensures (forall i | pos <= i < end :: text[i] != '\n') && (end < |text| ==> text[end] == '\n')
    decreases |text| - pos
  {
    if pos == |text| || text[pos] == '\n' then pos else LineEnd(text, pos + 1)
  }

  predicate IsSpace(c: char) {
    c in " \t\U{000C}"
  }

  /** The loop of get_end_pos: before trailing blanks and closing curly brackets. */
  function TrimEnd(text: string, end: nat): (p: nat)
    requires end <= |text|
    ensures p <= end && forall i | p <= i < end :: IsSpace(text[i]) || text[i] == '}'
    ensures p > 0 ==> !IsSpace(text[p - 1]) && text[p - 1] != '}'
  {
    if end > 0 && (IsSpace(text[end - 1]) || text[end - 1] == '}') then TrimEnd(text, end - 1) else end
  }

  /** get_end_pos */
  function EndPos(text: string, pos: nat): nat
    requires pos <= |text|
  {
    TrimEnd(text, LineEnd(text, pos))
  }

  /** The end of the line's text: nothing but blanks and closing curly brackets follows, and it cannot be moved back further. */
  lemma EndPosIs(text: string, pos: nat, p: nat)
    requires pos <= |text|
    ensures p == EndPos(text, pos) <==>
      && p <= LineEnd(text, pos)
      && (forall i | p <= i < LineEnd(text, pos) :: IsSpace(text[i]) || text[i] == '}')
      && (p > 0 ==> !IsSpace(text[p - 1]) && text[p - 1] != '}')
  {
    hide LineEnd, TrimEnd;
  }

  // ----- What a key does

  datatype KeyAction =
    /** The character is typed. */
    | Type
    /** The character is typed, with these closing characters after it. */
    | Close(right: string)
    /** The character replaces the same one after the caret. */
    | Swallow
    /** The same one is after the caret, and the character is typed in front of it. */
    | Double

  /** The decisions of auto_close_chars; `semicolon` is what it finds out about functions and structures. */
  function Decide(c: Config, text: string, pos: nat, ch: char, inCode: bool, semicolon: bool): (a: KeyAction)
    requires pos <= |text|
    ensures a.Swallow? || a.Double? ==> pos < |text| && text[pos] == ch
    ensures a.Close? ==> a.right != ""
  {
    if ch == '\0' || (ch !in c.pairs && !(ch == ';' && c.closeFunctions)) then Type
    else if IsQuote(ch) && CharIn(text, pos - 1) == '\\' then Type
    else
      var opens := ch in c.pairs && c.pairs[ch].0 != c.pairs[ch].1 && ch == c.pairs[ch].0;
      if ch == CharIn(text, pos) && c.suppressDoubling && !opens then
        if !c.commentsEnabled && !inCode && !IsQuote(ch) then Double
        else if ch == ';' && pos + 1 != EndPos(text, pos) then Double
        else Swallow
      else if ch !in c.pairs then Type
      else if !c.commentsEnabled && !inCode then Type
      else if ch == c.pairs[ch].1 && c.pairs[ch].0 != c.pairs[ch].1 then Type
      else Close([c.pairs[ch].1] + if semicolon then ";" else "")
  }

  predicate Knows(c: Config, ch: char) {
    ch in c.pairs || (ch == ';' && c.closeFunctions)
  }

  /** A quote after a backslash. */
  predicate Escaped(text: string, pos: nat, ch: char)
    requires pos <= |text|
  {
    IsQuote(ch) && pos > 0 && text[pos - 1] == '\\'
  }

  /** The character after the caret is the same one, and it may close something. */
  predicate MeetsItself(c: Config, text: string, pos: nat, ch: char) {
    && c.suppressDoubling && pos < |text| && text[pos] == ch
    && !(ch in c.pairs && ch == c.pairs[ch].0 && ch != c.pairs[ch].1)
  }

  /** The closing character is inserted: for the first character of a pair, where closing is wanted. */
  predicate Closes(c: Config, text: string, pos: nat, ch: char, inCode: bool)
    requires pos <= |text|
  {
    ch in c.pairs && ch == c.pairs[ch].0 && !Escaped(text, pos, ch) && !MeetsItself(c, text, pos, ch) && (c.commentsEnabled || inCode)
  }

  /** The character takes the place of the same one; comments and semicolons inside a line are excepted. */
  predicate Swallows(c: Config, text: string, pos: nat, ch: char, inCode: bool)
    requires pos <= |text|
  {
    && Knows(c, ch) && !Escaped(text, pos, ch) && MeetsItself(c, text, pos, ch)
    && (c.commentsEnabled || inCode || IsQuote(ch)) && (ch == ';' ==> pos + 1 == EndPos(text, pos))
  }

  /** The character meets itself, but neither takes its place nor is left alone. */
  predicate Doubles(c: Config, text: string, pos: nat, ch: char, inCode: bool)
    requires pos <= |text|
  {
    Knows(c, ch) && !Escaped(text, pos, ch) && MeetsItself(c, text, pos, ch) && !Swallows(c, text, pos, ch, inCode)
  }

  /** When the plugin closes, swallows or doubles a character; all others are typed. */
  lemma DecideExactly(c: Config, text: string, pos: nat, ch: char, inCode: bool, semicolon: bool)
    requires IsConfig(c) && pos <= |text|
    ensures var a := Decide(c, text, pos, ch, inCode, semicolon);
      && (a.Close? <==> Closes(c, text, pos, ch, inCode))
      && (a.Close? ==> a.right == [c.pairs[ch].1] + if semicolon then ";" else "")
      && (a.Swallow? <==> Swallows(c, text, pos, ch, inCode))
      && (a.Double? <==> Doubles(c, text, pos, ch, inCode))
  {
    hide EndPos;
  }

  /** The text after a character was typed. */
  function Typed(text: string, pos: nat, ch: char, a: KeyAction): string
    requires pos <= |text|
  {
    match a
    case Type => text[..pos] + [ch] + text[pos..]
    case Close(right) => text[..pos] + [ch] + right + text[pos..]
    case Swallow => text
    case Double => text[..pos] + [ch] + text[pos..]
  }

  /** The plugin's change and then the character. */
  lemma TypedAfter(text: string, pos: nat, ch: char, a: KeyAction)
    requires pos <= |text| && (a.Swallow? ==> pos < |text| && text[pos] == ch)
    ensures var t := match a
        case Close(right) => text[..pos] + right + text[pos..]
        case Swallow => text[..pos] + text[pos + 1..]
        case _ => text;
      |t| >= pos && t[..pos] + [ch] + t[pos..] == Typed(text, pos, ch, a)
  {
    if a.Close? {
      var t := text[..pos] + a.right + text[pos..];
      assert t[..pos] == text[..pos] && t[pos..] == a.right + text[pos..];
    }
  }

  /** Who types both characters of a pair gets the pair once, with the caret behind it. */
  lemma TypingBothGivesOnePair(c: Config, text: string, pos: nat, left: char, right: char, inCode: bool, semicolon: bool)
    requires pos <= |text| && left !in ";\0" && right !in ";\0"
    requires left in c.pairs && right in c.pairs && c.pairs[left] == (left, right) && c.pairs[right] == (left, right)
    requires c.suppressDoubling && (c.commentsEnabled || inCode)
    requires IsQuote(left) ==> CharIn(text, pos - 1) != '\\'
    requires IsQuote(right) ==> left != '\\'
    requires left == right ==> CharIn(text, pos) != left
    ensures var first := Decide(c, text, pos, left, inCode, semicolon);
      var typed := Typed(text, pos, left, first);
      && first == Close([right] + if semicolon then ";" else "")
      && Decide(c, typed, pos + 1, right, inCode, false) == Swallow
      && Typed(typed, pos + 1, right, Swallow) == text[..pos] + [left] + first.right + text[pos..]
  {
    var typed := Typed(text, pos, left, Decide(c, text, pos, left, inCode, semicolon));
    assert typed[pos] == left && typed[pos + 1] == right;
  }

  datatype Event = Key(ch: char, inCode: bool, semicolon: bool) | BackSpace | Tab | Move(to: nat)

  // ----- What the events do

  /** What the user sees, and the counter. */
  datatype State = State(text: string, caret: nat, jump: int)

  /** Between the two characters of an empty pair that goes as a whole. */
  predicate InPair(c: Config, text: string, caret: nat) {
    var ch := CharIn(text, caret - 1);
    caret > 0 && c.deletePairingBrace && ch in c.pairs && !(IsQuote(ch) && CharIn(text, caret - 2) == '\\')
    && c.pairs[ch].0 == ch && caret < |text| && c.pairs[ch].1 == text[caret]
  }

  /** Scintilla keeps positions inside the text. */
  function Clamped(text: string, pos: int): (p: nat)
    ensures p <= |text|
  {
    if pos < 0 then 0 else if pos > |text| then |text| else pos
  }

  function JumpAfter(jump: int, a: KeyAction): int {
    match a
    case Type => jump
    case Close(right) => jump + |right|
    case _ => if jump > 0 then jump - 1 else jump
  }

  /** Text and counter after a character key. */
  ghost predicate KeyOutcome(c: Config, text: string, pos: nat, jump: int, ch: char, inCode: bool, semicolon: bool, text': string, jump': int)
    requires pos <= |text|
  {
    if Closes(c, text, pos, ch, inCode) then
      && text' == text[..pos] + [ch, c.pairs[ch].1] + (if semicolon then ";" else "") + text[pos..]
      && jump' == jump + if semicolon then 2 else 1
    else
      && text' == (if Swallows(c, text, pos, ch, inCode) then text else text[..pos] + [ch] + text[pos..])
      && jump' == if Knows(c, ch) && !Escaped(text, pos, ch) && MeetsItself(c, text, pos, ch) && jump > 0 then jump - 1 else jump
  }

  lemma KeyOutcomeIs(c: Config, text: string, pos: nat, jump: int, ch: char, inCode: bool, semicolon: bool)
    requires IsConfig(c) && pos <= |text|
    ensures var a := Decide(c, text, pos, ch, inCode, semicolon);
      KeyOutcome(c, text, pos, jump, ch, inCode, semicolon, Typed(text, pos, ch, a), JumpAfter(jump, a))
  {
    hide EndPos, Decide;
    DecideExactly(c, text, pos, ch, inCode, semicolon);
    var a := Decide(c, text, pos, ch, inCode, semicolon);
    if a.Close? {
      assert [ch] + a.right == [ch, c.pairs[ch].1] + if semicolon then ";" else "";
      assert text[..pos] + [ch] + a.right + text[pos..] == text[..pos] + ([ch] + a.right) + text[pos..];
    }
  }

  function Moved(s: State, to: nat): State
    requires s.caret <= |s.text| && to <= |s.text|
  {
    s.(caret := to, jump := if s.jump != 0 && LineAt(s.text, to) == LineAt(s.text, s.caret) then s.jump + s.caret - to else 0)
  }

  function After(c: Config, s: State, e: Event): (s': State)
    requires s.caret <= |s.text|
    ensures s'.caret <= |s'.text|
  {
    match e
    case Key(ch, inCode, semicolon) =>
      var a := Decide(c, s.text, s.caret, ch, inCode, semicolon);
      State(Typed(s.text, s.caret, ch, a), s.caret + 1, JumpAfter(s.jump, a))
    case BackSpace =>
      if InPair(c, s.text, s.caret) then State(s.text[..s.caret - 1] + s.text[s.caret + 1..], s.caret - 1, 0)
      else if s.caret > 0 then State(s.text[..s.caret - 1] + s.text[s.caret..], s.caret - 1, s.jump)
      else s
    case Tab =>
      if s.jump != 0 then s.(caret := Clamped(s.text, s.caret + s.jump), jump := 0)
      else State(s.text[..s.caret] + "\t" + s.text[s.caret..], s.caret + 1, 0)
    case Move(to) => Moved(s, Clamped(s.text, to))
  }

  function AfterAll(c: Config, s: State, events: seq<Event>): (s': State)
    requires s.caret <= |s.text|
    ensures s'.caret <= |s'.text|
    decreases |events|
  {
    if events == [] then s else After(c, AfterAll(c, s, events[..|events| - 1]), events[|events| - 1])
  }

  lemma AfterNext(c: Config, s: State, events: seq<Event>, i: nat)
    requires s.caret <= |s.text| && i < |events|
    ensures AfterAll(c, s, events[..i + 1]) == After(c, AfterAll(c, s, events[..i]), events[i])
  {
    assert events[..i + 1][..i] == events[..i];
  }

  /** Both characters of a pair that the plugin knows, with the caret between them. */
  lemma InPairExactly(c: Config, text: string, caret: nat)
    requires IsConfig(c) && caret <= |text|
    ensures InPair(c, text, caret) <==>
      && c.deletePairingBrace && 0 < caret < |text| && text[caret - 1] in c.pairs
      && PAIRS[text[caret - 1]] == (text[caret - 1], text[caret])
      && !(text[caret - 1] in "'\"" && caret > 1 && text[caret - 2] == '\\')
  {
  }

  /** BackSpace takes back a key that closed a pair, but for a semicolon. */
  lemma BackSpaceUndoesClosing(c: Config, s: State, ch: char, inCode: bool, semicolon: bool)
    requires IsConfig(c) && c.deletePairingBrace && s.caret <= |s.text| && Closes(c, s.text, s.caret, ch, inCode)
    ensures After(c, After(c, s, Key(ch, inCode, semicolon)), BackSpace) ==
      State(s.text[..s.caret] + (if semicolon then ";" else "") + s.text[s.caret..], s.caret, 0)
  {
    hide Closes, Decide;
    var end := if semicolon then ";" else "";
    KeyOutcomeIs(c, s.text, s.caret, s.jump, ch, inCode, semicolon);
    DecideExactly(c, s.text, s.caret, ch, inCode, semicolon);
    ClosedPair(c, s.text, s.caret, ch, inCode, end);
    var s' := After(c, s, Key(ch, inCode, semicolon));
    assert s'.text == s.text[..s.caret] + [ch, c.pairs[ch].1] + end + s.text[s.caret..] && s'.caret == s.caret + 1;
  }

  lemma ClosedPair(c: Config, text: string, pos: nat, ch: char, inCode: bool, end: string)
    requires IsConfig(c) && c.deletePairingBrace && pos <= |text| && Closes(c, text, pos, ch, inCode)
    ensures var t := text[..pos] + [ch, c.pairs[ch].1] + end + text[pos..];
      InPair(c, t, pos + 1) && t[..pos] + t[pos + 2..] == text[..pos] + end + text[pos..]
  {
    var t := text[..pos] + [ch, c.pairs[ch].1] + end + text[pos..];
    assert t[pos] == ch && t[pos + 1] == c.pairs[ch].1;
    assert pos > 0 ==> t[pos - 1] == text[pos - 1];
    assert t[..pos] == text[..pos] && t[pos + 2..] == end + text[pos..];
  }

  /**
   The events that take the counter off its target: a character that should have been
   swallowed but was not, and moving past the target on its line.
   */
  predicate LosesTarget(c: Config, s: State, e: Event)
    requires s.caret <= |s.text|
  {
    match e
    case Key(ch, inCode, semicolon) => s.jump > 1 && Decide(c, s.text, s.caret, ch, inCode, semicolon).Double?
    case Move(to) => Moved(s, Clamped(s.text, to)).jump < 0
    case _ => false
  }

  class Editor {
    const config: Config
    var text: string
    var caret: nat
    /** jump_on_tab */
    var jump: int
    var lastCaret: int
    var lastLine: int
    /** How many characters follow the jump target; inserting and deleting in front of the target does not change it. */
    ghost var after: nat

    ghost predicate Valid()
      reads this
    {
      caret <= |text| && after <= |text| && lastCaret == caret && lastLine == LineAt(text, caret)
    }

    /** The place behind the characters that were inserted. */
    ghost function Target(): int
      reads this
    {
      |text| - after
    }

    /** While the counter is not zero, it is the distance from the caret to the target. */
    ghost predicate AtTarget()
      reads this
    {
      jump != 0 ==> caret + jump == Target()
    }

    constructor (config: Config, text: string)
      ensures Valid() && AtTarget() && jump == 0 && caret == 0
      ensures this.config == config && this.text == text
    {
      this.config, this.text := config, text;
      caret, jump, lastCaret, lastLine, after := 0, 0, 0, 0, 0;
      new;
      assert text[..0] == "";
    }

    /** SCI_INSERTTEXT; the caret stays. */
    method Insert(pos: nat, s: string)
      requires caret <= pos <= |text| && after <= |text|
      modifies `text, `after
      ensures text == old(text)[..pos] + s + old(text)[pos..]
      ensures after == if pos > old(Target()) then old(after) + |s| else old(after)
    {
      if pos > |text| - after { after := after + |s|; }
      text := text[..pos] + s + text[pos..];
    }

    /** SCI_DELETERANGE of one character */
    method Delete(pos: nat)
      requires pos < |text| && after <= |text|
      modifies `text, `after
      ensures text == old(text)[..pos] + old(text)[pos + 1..]
      ensures after == if pos >= old(Target()) then old(after) - 1 else old(after)
    {
      if pos >= |text| - after { after := after - 1; }
      text := text[..pos] + text[pos + 1..];
    }

    /** Scintilla types a character at the caret. */
    method TypeChar(ch: char)
      requires caret <= |text| && after <= |text|
      modifies `text, `after, `caret
      ensures text == old(text)[..old(caret)] + [ch] + old(text)[old(caret)..] && caret == old(caret) + 1
      ensures after == if old(caret) > old(Target()) then old(after) + 1 else old(after)
    {
      Insert(caret, [ch]);
      caret := caret + 1;
    }

    /** on_sci_notify */
    method OnNotify(updatedSelection: bool, updatedText: bool)
      requires caret <= |text|
      modifies `jump, `lastCaret, `lastLine
      ensures lastCaret == caret && lastLine == LineAt(text, caret)
      ensures jump ==
        if updatedSelection && !updatedText then
          if old(lastLine) == lastLine && old(jump) != 0 then old(jump) + old(lastCaret) - caret else 0
        else old(jump)
    {
      var newLine := LineAt(text, caret);
      if updatedSelection && !updatedText {
        var delta := lastCaret - caret;
        var deltaLine := lastLine - newLine;
        if deltaLine == 0 && jump != 0 {
          jump := jump + delta;
        } else {
          jump := 0;
        }
      }
      lastCaret := caret;
      lastLine := newLine;
    }

    /** What auto_close_chars does before Scintilla types the character. */
    method Act(a: KeyAction)
      requires caret <= |text| && after <= |text|
      requires a.Swallow? || a.Double? ==> caret < |text|
      modifies `text, `after, `jump, `lastCaret, `lastLine
      ensures text == match a
        case Close(right) => old(text)[..caret] + right + old(text)[caret..]
        case Swallow => old(text)[..caret] + old(text)[caret + 1..]
        case _ => old(text)
      ensures jump == match a
        case Type => old(jump)
        case Close(right) => old(jump) + |right|
        case _ => if old(jump) > 0 then old(jump) - 1 else old(jump)
      ensures after == match a
        case Close(right) =>
          if old(jump) == 0 then |old(text)| - caret else if caret > old(Target()) then old(after) + |right| else old(after)
        case Swallow => if caret >= old(Target()) then old(after) - 1 else old(after)
        case _ => old(after)
    {
      hide LineAt;
      match a {
        case Type =>
        case Close(right) =>
          if jump == 0 { after := |text| - caret; }
          Insert(caret, right);
          jump := jump + |right|;
          lastCaret := caret;
          lastLine := LineAt(text, caret);
        case Swallow =>
          if jump > 0 { jump := jump - 1; }
          Delete(caret);
        case Double =>
          if jump > 0 { jump := jump - 1; }
      }
    }

    /** A character key: auto_close_chars, Scintilla's own handling of the key, and its notification. */
    method KeyPress(ch: char, inCode: bool, semicolon: bool)
      requires Valid()
      modifies this
      ensures Valid() && caret == old(caret) + 1
      ensures text == Typed(old(text), old(caret), ch, Decide(config, old(text), old(caret), ch, inCode, semicolon))
      ensures var a := Decide(config, old(text), old(caret), ch, inCode, semicolon);
        && (a.Type? ==> jump == old(jump))
        && (a.Close? ==> jump == old(jump) + |a.right|)
        && (a.Close? && old(jump) == 0 ==> Target() == caret + |a.right|)
        && (a.Swallow? || a.Double? ==> jump == if old(jump) > 0 then old(jump) - 1 else old(jump))
        && (old(AtTarget()) ==> (AtTarget() <==> jump == 0 || (old(jump) >= 0 && !a.Double?)))
      ensures IsConfig(config) ==> KeyOutcome(config, old(text), old(caret), old(jump), ch, inCode, semicolon, text, jump)
    {
      hide Decide, LineAt, KeyOutcome;
      if IsConfig(config) { KeyOutcomeIs(config, text, caret, jump, ch, inCode, semicolon); }
      var a := Decide(config, text, caret, ch, inCode, semicolon);
      TypedAfter(text, caret, ch, a);
      Act(a);
      TypeChar(ch);
      OnNotify(true, true);
    }

    /** The part of handle_backspace without Shift: an empty pair goes as a whole. */
    predicate InEmptyPair()
      reads this
    {
      InPair(config, text, caret)
    }

    /** BackSpace, with Scintilla's own handling of the key */
    method PressBackSpace()
      requires Valid()
      modifies this
      ensures Valid()
      ensures caret == if old(caret) > 0 then old(caret) - 1 else 0
      ensures text == if old(caret) == 0 then old(text)
        else old(text)[..caret] + old(text)[old(caret) + if old(InEmptyPair()) then 1 else 0..]
      ensures old(InEmptyPair()) ==> jump == 0
      ensures !old(InEmptyPair()) ==> jump == old(jump)
      ensures old(AtTarget()) ==> (AtTarget() <==> jump == 0 || old(jump) >= 0 || old(caret) == 0)
    {
      hide LineAt;
      ghost var t, p := text, caret;
      if InEmptyPair() {
        Delete(caret);
        jump := 0;
        assert text[..p - 1] == t[..p - 1] && text[p..] == t[p + 1..];
      }
      if caret > 0 {
        Delete(caret - 1);
        caret := caret - 1;
      }
      OnNotify(true, true);
    }

    /** Tab: the caret lands on the target. */
    method PressTab()
      requires Valid() && AtTarget()
      modifies this
      ensures Valid() && jump == 0
      ensures old(jump) != 0 ==> caret == old(Target()) && text == old(text)
      ensures old(jump) == 0 ==> text == old(text)[..old(caret)] + "\t" + old(text)[old(caret)..] && caret == old(caret) + 1
    {
      hide LineAt;
      if jump == 0 {
        TypeChar('\t');
        OnNotify(true, true);
      } else {
        caret := caret + jump;
        jump := 0;
        OnNotify(true, false);
      }
    }

    /** The caret is moved: on the same line the counter follows, on another line it is reset. */
    method MoveCaret(to: nat)
      requires Valid() && to <= |text|
      modifies this
      ensures Valid() && text == old(text) && caret == to && after == old(after)
      ensures old(AtTarget()) ==> AtTarget()
      ensures LineAt(text, to) != LineAt(text, old(caret)) ==> jump == 0
      ensures LineAt(text, to) == LineAt(text, old(caret)) ==> (jump != 0 <==> old(jump) != 0 && to != old(caret) + old(jump))
    {
      hide LineAt;
      caret := to;
      OnNotify(true, false);
    }

    function Value(): State
      reads this
    {
      State(text, caret, jump)
    }

    /**
     Runs of closing, typing, backspacing, swallowing, jumping and moving: the counter leads to
     the target up to the first event that takes it off, after `handled` others.
     */
    method Run(events: seq<Event>) returns (handled: nat)
      requires Valid() && AtTarget() && jump >= 0
      modifies this
      ensures Valid() && AtTarget() && jump >= 0 && handled <= |events|
      ensures Value() == AfterAll(config, old(Value()), events[..handled])
      ensures handled < |events| ==> LosesTarget(config, Value(), events[handled])
    {
      hide Decide, LineAt, After, LosesTarget;
      handled := 0;
      assert events[..0] == [];
      while handled < |events| && !LosesTarget(config, Value(), events[handled])
        invariant Valid() && AtTarget() && jump >= 0 && handled <= |events|
        invariant Value() == AfterAll(config, old(Value()), events[..handled])
      {
        AfterNext(config, old(Value()), events, handled);
        Handle(events[handled]);
        handled := handled + 1;
      }
    }

    method Handle(event: Event)
      requires Valid() && AtTarget() && jump >= 0 && !LosesTarget(config, Value(), event)
      modifies this
      ensures Valid() && AtTarget() && jump >= 0
      ensures Value() == After(config, old(Value()), event)
    {
      hide Decide, LineAt;
      match event
      case Key(ch, inCode, semicolon) => KeyPress(ch, inCode, semicolon);
      case BackSpace => PressBackSpace();
      case Tab => PressTab();
      case Move(to) => MoveCaret(Clamped(text, to));
    }
  }
}
