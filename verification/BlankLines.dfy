/**
 Stripping trailing blank lines before a document is saved, ao_blanklines.c.
 A line ends with "\n", "\r" or "\r\n"; the last line has no end.
 */
module BlankLines {

  predicate IsBlank(c: char) {
    c == ' ' || c == '\t'
  }

  predicate IsEol(c: char) {
    c == '\n' || c == '\r'
  }

  predicate AllWhite(s: string) {
    forall i | 0 <= i < |s| :: IsBlank(s[i]) || IsEol(s[i])
  }

  // ----- Lines

  /** A line begins at `p`. */
  predicate IsStart(text: string, p: nat)
    requires p <= |text|
  {
    p == 0 || text[p - 1] == '\n' || (text[p - 1] == '\r' && !(p < |text| && text[p] == '\n'))
  }

  /** The starts of lines up to `n`. */
  function Starts(text: string, n: nat): (starts: seq<nat>)
    requires n <= |text|
    ensures starts != [] && starts[0] == 0
    ensures forall i | 0 <= i < |starts| :: starts[i] <= n && IsStart(text, starts[i])
    ensures forall i, j | 0 <= i < j < |starts| :: starts[i] < starts[j]
    ensures forall p: nat | p <= n && IsStart(text, p) :: p in starts
  {
    if n == 0 then [0]
    else Starts(text, n - 1) + if IsStart(text, n) then [n] else []
  }

  /** sci_get_line_count */
  function LineCount(text: string): (count: nat)
    ensures count > 0
  {
    |Starts(text, |text|)|
  }

  /** sci_get_position_from_line; one past the last line is the end of the document. */
  function PositionFromLine(text: string, line: nat): (p: nat)
    requires line <= LineCount(text)
    ensures p <= |text|
  {
    if line == LineCount(text) then |text| else Starts(text, |text|)[line]
  }

  /** sci_get_line_end_position: the position before the line's end characters. */
  function LineEnd(text: string, line: nat): (p: nat)
    requires line < LineCount(text)
    ensures PositionFromLine(text, line) <= p <= PositionFromLine(text, line + 1)
  {
    var start, next := PositionFromLine(text, line), PositionFromLine(text, line + 1);
    if line == LineCount(text) - 1 then next
    else if next - 2 >= start && text[next - 2] == '\r' && text[next - 1] == '\n' then next - 2
    else next - 1
  }

  lemma NoStartInside(text: string, line: nat, p: nat)
    requires line < LineCount(text) && PositionFromLine(text, line) < p <= |text|
    requires line + 1 < LineCount(text) ==> p < PositionFromLine(text, line + 1)
    ensures !IsStart(text, p)
  {
    hide IsStart;
    var starts := Starts(text, |text|);
    forall k | 0 <= k < |starts|
      ensures starts[k] != p
    {
      if k > line + 1 { assert starts[line + 1] < starts[k]; }
    }
  }

  lemma NextIsStart(text: string, line: nat)
    requires line + 1 < LineCount(text)
    ensures PositionFromLine(text, line) < PositionFromLine(text, line + 1)
    ensures IsStart(text, PositionFromLine(text, line + 1))
  {
    hide IsStart;
    var starts := Starts(text, |text|);
    assert starts[line] < starts[line + 1];
  }

  /** The characters of a line's end. */
  ghost predicate EndsAt(text: string, end: nat, next: nat) {
    && end < next <= |text|
    && if next == end + 1 then text[end] == '\n' || (text[end] == '\r' && !(next < |text| && text[next] == '\n'))
       else next == end + 2 && text[end] == '\r' && text[end + 1] == '\n'
  }

  /** A line has no end characters inside, and what follows it up to the next line is its end. */
  lemma LineShape(text: string, line: nat)
    requires line < LineCount(text)
    ensures forall i | PositionFromLine(text, line) <= i < LineEnd(text, line) :: !IsEol(text[i])
    ensures line + 1 == LineCount(text) ==> LineEnd(text, line) == PositionFromLine(text, line + 1) == |text|
    ensures line + 1 < LineCount(text) ==> EndsAt(text, LineEnd(text, line), PositionFromLine(text, line + 1))
  {
    hide Starts, PositionFromLine;
    var start, end, next := PositionFromLine(text, line), LineEnd(text, line), PositionFromLine(text, line + 1);
    if line + 1 < LineCount(text) {
      NextIsStart(text, line);
    } else {
      AfterLastLine(text);
    }
    forall i | start <= i < end
      ensures !IsEol(text[i])
    {
      if i + 1 < next || line + 1 == LineCount(text) { NoStartInside(text, line, i + 1); }
      if i + 2 < next || (line + 1 == LineCount(text) && i + 2 <= |text|) { NoStartInside(text, line, i + 2); }
    }
  }

  lemma AfterLastLine(text: string)
    ensures PositionFromLine(text, LineCount(text)) == |text|
  {
  }

  // ----- What stripping means

  /** Without all trailing spaces, tabs and line ends. */
  function RStrip(text: string): (r: string)
    ensures r <= text && AllWhite(text[|r|..])
    ensures r != "" ==> !IsBlank(r[|r| - 1]) && !IsEol(r[|r| - 1])
  {
    if text != "" && (IsBlank(text[|text| - 1]) || IsEol(text[|text| - 1])) then
      var r := RStrip(text[..|text| - 1]);
      assert text[|r|..] == text[..|text| - 1][|r|..] + [text[|text| - 1]];
      r
    else text
  }

  /** Where the line that `p` is in ends, its end included. */
  function AfterLine(text: string, p: nat): (q: nat)
    requires p <= |text|
    ensures p <= q <= |text|
    decreases |text| - p
  {
    if p == |text| then p
    else if text[p] == '\n' then p + 1
    else if text[p] == '\r' then (if p + 1 < |text| && text[p + 1] == '\n' then p + 2 else p + 1)
    else AfterLine(text, p + 1)
  }

  /** The stripped document; with `finalNewLine` the last line that is not blank stays as it is. */
  function Stripped(text: string, finalNewLine: bool): (r: string)
    ensures r <= text && AllWhite(text[|r|..])
  {
    var r := RStrip(text);
    if r == "" || !finalNewLine then r else text[..AfterLine(text, |r|)]
  }

  ghost predicate WhiteBetween(text: string, from: nat, to: nat)
    requires to <= |text|
  {
    forall i | from <= i < to :: IsBlank(text[i]) || IsEol(text[i])
  }

  /** The last character that is not white ends the stripped text. */
  lemma {:induction false} RStripAt(text: string, p: nat)
    requires p <= |text| && WhiteBetween(text, p, |text|)
    requires p > 0 ==> !IsBlank(text[p - 1]) && !IsEol(text[p - 1])
    ensures RStrip(text) == text[..p]
    decreases |text|
  {
    if p < |text| {
      RStripAt(text[..|text| - 1], p);
    }
  }

  lemma {:induction false} AfterLineAt(text: string, p: nat, end: nat, next: nat)
    requires p <= end <= |text| && (forall i | p <= i < end :: IsBlank(text[i]))
    requires EndsAt(text, end, next) || end == next == |text|
    ensures AfterLine(text, p) == next
    decreases end - p
  {
    if p < end { AfterLineAt(text, p + 1, end, next); }
  }

  class Editor {
    var text: string

    constructor (text: string)
      ensures this.text == text
    {
      this.text := text;
    }

    /** sci_replace_target with an empty replacement */
    method DeleteRange(start: nat, end: nat)
      requires start <= end <= |text|
      modifies this
      ensures text == old(text)[..start] + old(text)[end..]
    {
      text := text[..start] + text[end..];
    }

    /** The inner loop: the position after the last character of a line that is no space or tab. */
    method TrimmedEnd(start: nat, end: nat) returns (pos: nat)
      requires start <= end <= |text|
      ensures start <= pos <= end && (pos > start ==> !IsBlank(text[pos - 1]))
      ensures forall i | pos <= i < end :: IsBlank(text[i])
    {
      var p: int := end - 1;
      while p >= start && IsBlank(text[p])
        invariant start - 1 <= p < end
        invariant forall i | p < i < end :: IsBlank(text[i])
      {
        p := p - 1;
      }
      pos := p + 1;
    }

    /** editor_strip_trailing_newlines */
    method StripTrailingNewlines(finalNewLine: bool)
      modifies this
      ensures text == Stripped(old(text), finalNewLine)
    {
      hide Starts, LineEnd, PositionFromLine, LineCount, RStrip, AfterLine, IsBlank, IsEol, EndsAt;
      var maxline := LineCount(text) - 1;
      var maxpos := LineEnd(text, maxline);
      LineShape(text, maxline);
      var line, pos := maxline, 0;
      while line >= 0
        invariant -1 <= line <= maxline && text == old(text)
        invariant WhiteBetween(text, PositionFromLine(text, line + 1), |text|)
      {
        var start := PositionFromLine(text, line);
        var end := LineEnd(text, line);
        LineShape(text, line);
        pos := TrimmedEnd(start, end);
        LineIsWhite(text, line, pos);
        if pos > start {
          RStripAt(text, pos);
          AfterLineAt(text, pos, end, PositionFromLine(text, line + 1));
          break;
        }
        line := line - 1;
      }
      if line == -1 {
        FirstLine(text);
        RStripAt(text, 0);
      }
      if line == -1 || finalNewLine {
        line := line + 1;
        pos := PositionFromLine(text, line);
      }
      assert Stripped(text, finalNewLine) == text[..pos];
      if pos < maxpos {
        DeleteRange(pos, maxpos);
      }
    }
  }

  lemma FirstLine(text: string)
    ensures PositionFromLine(text, 0) == 0
  {
  }

  /** From where only blanks are left in a line, everything up to the next line is white. */
  lemma LineIsWhite(text: string, line: nat, p: nat)
    requires line < LineCount(text) && PositionFromLine(text, line) <= p <= LineEnd(text, line)
    requires forall i | p <= i < LineEnd(text, line) :: IsBlank(text[i])
    requires WhiteBetween(text, PositionFromLine(text, line + 1), |text|)
    ensures WhiteBetween(text, p, |text|)
    ensures p > PositionFromLine(text, line) ==> !IsEol(text[p - 1])
  {
    hide Starts, LineEnd, PositionFromLine, LineCount;
    LineShape(text, line);
  }

  // ----- What stripping achieves

  lemma AllWhiteStripped(text: string, finalNewLine: bool)
    requires AllWhite(text)
    ensures Stripped(text, finalNewLine) == ""
  {
    RStripAt(text, 0);
  }

  lemma {:induction false} AfterLineOfPrefix(text: string, p: nat)
    requires p <= |text|
    ensures AfterLine(text[..AfterLine(text, p)], p) == AfterLine(text, p)
    decreases |text| - p
  {
    if p < |text| && !IsEol(text[p]) { AfterLineOfPrefix(text, p + 1); }
  }

  lemma RStripOfPrefix(text: string, n: nat)
    requires |RStrip(text)| <= n <= |text|
    ensures RStrip(text[..n]) == RStrip(text)
  {
    var r := RStrip(text);
    forall i | |r| <= i < n
      ensures IsBlank(text[i]) || IsEol(text[i])
    {
      assert text[|r|..][i - |r|] == text[i];
    }
    RStripAt(text[..n], |r|);
  }

  /** Stripping twice is stripping once. */
  lemma StrippedTwice(text: string, finalNewLine: bool)
    ensures Stripped(Stripped(text, finalNewLine), finalNewLine) == Stripped(text, finalNewLine)
  {
    var r, s := RStrip(text), Stripped(text, finalNewLine);
    hide RStrip, AfterLine;
    RStripOfPrefix(text, |s|);
    assert s == text[..|s|];
    AfterLineOfPrefix(text, |r|);
  }

  /** After `n` characters `s` has nothing but one line end, or nothing at all. */
  predicate LineEndAt(s: string, n: nat) {
    |s| == n || (|s| == n + 1 && IsEol(s[n])) || (|s| == n + 2 && s[n] == '\r' && s[n + 1] == '\n')
  }

  /** Without the setting the document does not end in white space. */
  lemma StrippedEnd(text: string)
    ensures var s := Stripped(text, false); s != "" ==> !IsBlank(s[|s| - 1]) && !IsEol(s[|s| - 1])
  {
  }

  /**
   With the setting it ends with its last line that is not blank, blanks included, and with one
   line end if anything was there to be removed: that line's own, which is not cut in two.
   */
  lemma StrippedEndsInOneLine(text: string) returns (n: nat)
    ensures var s := Stripped(text, true);
      s != "" ==>
        && 0 < |RStrip(text)| <= n <= |s| && !IsEol(s[n - 1]) && LineEndAt(s, n) && RStrip(s[..n]) == RStrip(text)
        && (forall i | |RStrip(text)| <= i < n :: IsBlank(text[i]))
        && (|s| == n ==> s == text)
        && (|s| < |text| && s[|s| - 1] == '\r' ==> text[|s|] != '\n')
  {
    hide AfterLine;
    var r, s := RStrip(text), Stripped(text, true);
    n := 0;
    if s != "" {
      assert s == text[..AfterLine(text, |r|)];
      n := BeforeEnd(text, |r|);
      RStripOfPrefix(text, n);
      assert s[..n] == text[..n];
    }
  }

  lemma {:induction false} BeforeEnd(text: string, p: nat) returns (n: nat)
    requires 0 < p <= |text| && !IsEol(text[p - 1]) && WhiteBetween(text, p, |text|)
    ensures p <= n <= AfterLine(text, p) && !IsEol(text[n - 1])
    ensures LineEndAt(text[..AfterLine(text, p)], n)
    ensures forall i | p <= i < n :: IsBlank(text[i])
    ensures AfterLine(text, p) == n ==> n == |text|
    ensures var q := AfterLine(text, p); q < |text| && text[q - 1] == '\r' ==> text[q] != '\n'
    decreases |text| - p
  {
    if p == |text| || IsEol(text[p]) {
      n := p;
    } else {
      n := BeforeEnd(text, p + 1);
    }
  }

  /** The setting keeps a line end: only a text that is left alone, or of which nothing is left, does not end in one. */
  lemma FinalNewLineKept(text: string)
    ensures var s := Stripped(text, true); s == "" || s == text || IsEol(s[|s| - 1])
  {
    hide RStrip, AfterLine;
    var n := StrippedEndsInOneLine(text);
  }
}
