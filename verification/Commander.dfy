/**
 Commander's fuzzy matching and its ranking of rows, commander-plugin.c.
 Strings are C strings: bytes without a terminator in the middle.
 */
module Commander {
  import opened Common

  const SEPARATORS := " -_./\\\"'"

  /** strchr also finds the terminator, but here the byte is never that. */
  predicate IsSeparator(c: char) {
    c in SEPARATORS
  }

  /** IS_SEPARATOR of the byte after `s[i]`; the terminator counts as a separator. */
  function WordEnd(s: string, i: nat): (bonus: nat)
    ensures bonus <= 1
  {
    if i + 1 < |s| && !IsSeparator(s[i + 1]) then 0 else 1
  }

  /** strpbrk: the rest of `s` from its first separator on. */
  function NextSeparator(s: string): (rest: Option<string>)
    ensures rest.Some? ==> rest.value != "" && IsSeparator(rest.value[0]) && |rest.value| <= |s|
    ensures rest.Some? ==> rest.value == s[|s| - |rest.value|..]
    ensures rest.Some? ==> forall i | 0 <= i < |s| - |rest.value| :: !IsSeparator(s[i])
    ensures rest.None? ==> forall i | 0 <= i < |s| :: !IsSeparator(s[i])
  {
    if s == "" then None
    else if IsSeparator(s[0]) then Some(s)
    else NextSeparator(s[1..])
  }

  function Max(a: int, b: int): int {
    if a > b then a else b
  }

  /** get_score; a missing haystack is NULL, the needle never is. */
  function GetScore(needle: string, haystack: Option<string>): (score: int)
    ensures 0 <= score <= 2 * |needle| + 1
    decreases if haystack.Some? then |haystack.value| + 1 else 0
  {
    if haystack.None? then 0
    else
      var h := haystack.value;
      if needle == "" || h == "" then (if needle == "" then 1 else 0)
      else if IsSeparator(h[0]) then GetScore(if IsSeparator(needle[0]) then needle[1..] else needle, Some(h[1..]))
      else if IsSeparator(needle[0]) then GetScore(needle[1..], NextSeparator(h))
      else if needle[0] == h[0] then
        Max(GetScore(needle[1..], Some(h[1..])) + 1 + WordEnd(h, 0), GetScore(needle, NextSeparator(h)))
      else GetScore(needle, NextSeparator(h))
  }

  // ----- Alignments

  predicate WordStart(hay: string, i: nat)
    requires i <= |hay|
  {
    i == 0 || IsSeparator(hay[i - 1])
  }

  /** Where a character may go whose predecessor was placed just before `from`: directly there, or at the start of a word. */
  predicate MayFollow(hay: string, from: nat, at: nat) {
    from <= at < |hay| && (at == from || WordStart(hay, at))
  }

  /** Where a separator of the needle goes: on a separator that is directly there, or else on the last character before the next one. */
  predicate EndsWord(hay: string, from: nat, at: nat) {
    && from <= at < |hay|
    && if IsSeparator(hay[from]) then at == from
       else at + 1 < |hay| && IsSeparator(hay[at + 1]) && forall k | from <= k <= at :: !IsSeparator(hay[k])
  }

  /** Character `c` of the needle is at `at`, its predecessor just before `from`. */
  predicate Fits(c: char, hay: string, from: nat, at: nat) {
    if IsSeparator(c) then EndsWord(hay, from, at) else MayFollow(hay, from, at) && hay[at] == c
  }

  predicate Placed(needle: string, hay: string, from: nat, places: seq<nat>, i: nat)
    requires i < |places| <= |needle|
  {
    Fits(needle[i], hay, if i == 0 then from else places[i - 1] + 1, places[i])
  }

  /** A prefix of the needle, in order, at places of the haystack from `from` on. */
  ghost predicate Alignment(needle: string, hay: string, from: nat, places: seq<nat>) {
    |places| <= |needle| && forall i | 0 <= i < |places| :: Placed(needle, hay, from, places, i)
  }

  /** Each character that is no separator is worth a point, and another one at the end of a word. */
  function Worth(needle: string, hay: string, places: seq<nat>): nat
    requires |places| <= |needle|
  {
    if places == [] then 0
    else (if IsSeparator(needle[0]) then 0 else 1 + WordEnd(hay, places[0])) + Worth(needle[1..], hay, places[1..])
  }

  /** What the characters are worth, and a point for a needle that is used up. */
  function Points(needle: string, hay: string, places: seq<nat>): int
    requires |places| <= |needle|
  {
    Worth(needle, hay, places) + if |places| == |needle| then 1 else 0
  }

  lemma AlignmentTail(needle: string, hay: string, from: nat, places: seq<nat>)
    requires places != [] && |places| <= |needle|
    ensures Alignment(needle, hay, from, places) <==>
      Fits(needle[0], hay, from, places[0]) && Alignment(needle[1..], hay, places[0] + 1, places[1..])
  {
    hide Fits;
    var tail, rest, next := places[1..], needle[1..], places[0] + 1;
    forall i | 0 < i < |places|
      ensures Placed(needle, hay, from, places, i) <==> Placed(rest, hay, next, tail, i - 1)
    {
      assert tail[i - 1] == places[i];
    }
    if Alignment(needle, hay, from, places) {
      assert Placed(needle, hay, from, places, 0);
      forall i | 0 <= i < |tail|
        ensures Placed(rest, hay, next, tail, i)
      {
        assert Placed(needle, hay, from, places, i + 1);
      }
    }
    if Alignment(rest, hay, next, tail) {
      forall i | 0 < i < |places|
        ensures Placed(needle, hay, from, places, i)
      {
        assert Placed(rest, hay, next, tail, i - 1);
      }
    }
  }

  // ----- The score is the best one

  /** The haystack from its first separator at or after `from`. */
  lemma NextSeparatorAt(hay: string, from: nat)
    requires from <= |hay| && NextSeparator(hay[from..]).Some?
    ensures var rest := NextSeparator(hay[from..]).value;
      var k := |hay| - |rest|;
      from <= k < |hay| && rest == hay[k..] && IsSeparator(hay[k]) && forall i | from <= i < k :: !IsSeparator(hay[i])
  {
    hide IsSeparator, NextSeparator;
    var rest := NextSeparator(hay[from..]).value;
    var k := |hay| - |rest|;
    assert hay[from..][k - from..] == hay[k..];
    assert hay[k..][0] == hay[k];
    forall i | from <= i < k
      ensures !IsSeparator(hay[i])
    {
      assert hay[from..][i - from] == hay[i];
    }
  }

  lemma NoNextSeparator(hay: string, from: nat)
    requires from <= |hay| && NextSeparator(hay[from..]).None?
    ensures forall i | from <= i < |hay| :: !IsSeparator(hay[i])
  {
    hide IsSeparator, NextSeparator;
    forall i | from <= i < |hay|
      ensures !IsSeparator(hay[i])
    {
      assert hay[from..][i - from] == hay[i];
    }
  }

  /** The score of the needle against the haystack from `from` on. */
  function ScoreFrom(needle: string, hay: string, from: nat): int
    requires from <= |hay|
  {
    GetScore(needle, Some(hay[from..]))
  }

  /** The score of the needle against the haystack from its next separator on. */
  function ScoreLater(needle: string, hay: string, from: nat): int
    requires from <= |hay|
  {
    GetScore(needle, NextSeparator(hay[from..]))
  }

  /** get_score, in terms of positions in the haystack. */
  lemma ScoreCases(needle: string, hay: string, from: nat)
    requires from <= |hay|
    ensures needle == "" ==> ScoreFrom(needle, hay, from) == 1
    ensures needle != "" && from == |hay| ==> ScoreFrom(needle, hay, from) == 0
    ensures needle != "" && from < |hay| ==>
      ScoreFrom(needle, hay, from) == (
        if IsSeparator(hay[from]) then ScoreFrom(if IsSeparator(needle[0]) then needle[1..] else needle, hay, from + 1)
        else if IsSeparator(needle[0]) then ScoreLater(needle[1..], hay, from)
        else if needle[0] == hay[from] then
          Max(ScoreFrom(needle[1..], hay, from + 1) + 1 + WordEnd(hay, from), ScoreLater(needle, hay, from))
        else ScoreLater(needle, hay, from))
  {
    if from < |hay| {
      assert hay[from..][0] == hay[from] && hay[from..][1..] == hay[from + 1..];
      assert WordEnd(hay[from..], 0) == WordEnd(hay, from);
    }
  }

  /** Another beginning from which the first character fits as well. */
  lemma OtherBeginning(needle: string, hay: string, from: nat, other: nat, places: seq<nat>)
    requires Alignment(needle, hay, from, places)
    requires places != [] ==> Fits(needle[0], hay, other, places[0])
    ensures Alignment(needle, hay, other, places)
  {
    hide Fits;
    forall i | 0 <= i < |places|
      ensures Placed(needle, hay, other, places, i)
    {
      assert Placed(needle, hay, from, places, i);
    }
  }

  /** Optimality: no alignment has more points than the score. */
  lemma {:induction false} ScoreIsUpperBound(needle: string, hay: string, from: nat, places: seq<nat>)
    requires from <= |hay| && Alignment(needle, hay, from, places)
    ensures Points(needle, hay, places) <= ScoreFrom(needle, hay, from)
    decreases |hay| - from, 1
  {
    hide GetScore, Alignment, EndsWord;
    ScoreCases(needle, hay, from);
    AlignmentSize(needle, hay, from, places);
    if places != [] {
      AlignmentTail(needle, hay, from, places);
      FitsInside(needle[0], hay, from, places[0]);
      if IsSeparator(needle[0]) {
        SeparatorIsUpperBound(needle, hay, from, places);
      } else if places[0] == from {
        ScoreIsUpperBound(needle[1..], hay, from + 1, places[1..]);
      } else if IsSeparator(hay[from]) {
        OtherBeginning(needle, hay, from, from + 1, places);
        ScoreIsUpperBound(needle, hay, from + 1, places);
      } else {
        LaterIsUpperBound(needle, hay, from, places);
      }
    }
  }

  lemma AlignmentSize(needle: string, hay: string, from: nat, places: seq<nat>)
    requires Alignment(needle, hay, from, places)
    ensures |places| <= |needle|
    ensures places == [] ==> Points(needle, hay, places) == if needle == "" then 1 else 0
  {
  }

  lemma FitsInside(c: char, hay: string, from: nat, at: nat)
    requires Fits(c, hay, from, at)
    ensures from <= at < |hay|
  {
  }

  lemma SeparatorIsUpperBound(needle: string, hay: string, from: nat, places: seq<nat>)
    requires from < |hay| && Alignment(needle, hay, from, places) && places != [] && IsSeparator(needle[0])
    ensures Points(needle, hay, places) <= ScoreFrom(needle, hay, from)
    decreases |hay| - from, 0
  {
    hide GetScore, Alignment, IsSeparator, NextSeparator;
    ScoreCases(needle, hay, from);
    AlignmentSize(needle, hay, from, places);
    AlignmentTail(needle, hay, from, places);
    if !IsSeparator(hay[from]) { WordEndsBefore(hay, from, places[0]); }
    ScoreIsUpperBound(needle[1..], hay, places[0] + 1, places[1..]);
  }

  /** The next separator follows the place where the word ends. */
  lemma WordEndsBefore(hay: string, from: nat, at: nat)
    requires EndsWord(hay, from, at) && !IsSeparator(hay[from])
    ensures NextSeparator(hay[from..]) == Some(hay[at + 1..])
  {
    hide IsSeparator, NextSeparator;
    if NextSeparator(hay[from..]).None? { NoNextSeparator(hay, from); }
    NextSeparatorAt(hay, from);
  }

  lemma LaterIsUpperBound(needle: string, hay: string, from: nat, places: seq<nat>)
    requires from < |hay| && Alignment(needle, hay, from, places)
    requires places != [] && !IsSeparator(needle[0]) && from < places[0] && !IsSeparator(hay[from])
    ensures |places| <= |needle| && Points(needle, hay, places) <= ScoreLater(needle, hay, from)
    decreases |hay| - from, 0
  {
    hide GetScore, NextSeparator, IsSeparator, Alignment;
    AlignmentSize(needle, hay, from, places);
    AlignmentTail(needle, hay, from, places);
    assert IsSeparator(hay[places[0] - 1]);
    if NextSeparator(hay[from..]).None? { NoNextSeparator(hay, from); }
    NextSeparatorAt(hay, from);
    var k := |hay| - |NextSeparator(hay[from..]).value|;
    assert k <= places[0] - 1;
    OtherBeginning(needle, hay, from, k, places);
    ScoreIsUpperBound(needle, hay, k, places);
  }

  /** Soundness: some alignment has as many points as the score. */
  lemma {:induction false} ScoreIsReached(needle: string, hay: string, from: nat) returns (places: seq<nat>)
    requires from <= |hay|
    ensures Alignment(needle, hay, from, places) && |places| <= |needle|
    ensures Points(needle, hay, places) == ScoreFrom(needle, hay, from)
    decreases |hay| - from, 1
  {
    hide GetScore, Alignment, Points, EndsWord;
    ScoreCases(needle, hay, from);
    places := [];
    NoPlaces(needle, hay, from);
    if needle == "" || from == |hay| {
    } else if IsSeparator(needle[0]) {
      places := SeparatorIsReached(needle, hay, from);
    } else if IsSeparator(hay[from]) {
      places := ScoreIsReached(needle, hay, from + 1);
      AfterSeparator(needle, hay, from, from, places);
    } else if needle[0] == hay[from] && ScoreFrom(needle, hay, from) != ScoreLater(needle, hay, from) {
      var rest := ScoreIsReached(needle[1..], hay, from + 1);
      places := [from] + rest;
      HereAligned(needle, hay, from, from, rest);
    } else {
      places := LaterIsReached(needle, hay, from);
    }
  }

  lemma SeparatorIsReached(needle: string, hay: string, from: nat) returns (places: seq<nat>)
    requires from < |hay| && needle != "" && IsSeparator(needle[0])
    ensures Alignment(needle, hay, from, places) && |places| <= |needle|
    ensures Points(needle, hay, places) == ScoreFrom(needle, hay, from)
    decreases |hay| - from, 0
  {
    hide GetScore, Alignment, Points, IsSeparator, NextSeparator;
    ScoreCases(needle, hay, from);
    places := [];
    NoPlaces(needle, hay, from);
    if IsSeparator(hay[from]) {
      var rest := ScoreIsReached(needle[1..], hay, from + 1);
      places := [from] + rest;
      HereAligned(needle, hay, from, from, rest);
    } else if NextSeparator(hay[from..]).Some? {
      NextSeparatorAt(hay, from);
      var k := |hay| - |NextSeparator(hay[from..]).value|;
      var rest := ScoreIsReached(needle[1..], hay, k);
      places := [k - 1] + rest;
      HereAligned(needle, hay, from, k - 1, rest);
    } else {
      NothingScores(needle[1..]);
    }
  }

  lemma NothingScores(needle: string)
    ensures GetScore(needle, None) == 0
  {
  }

  lemma LaterIsReached(needle: string, hay: string, from: nat) returns (places: seq<nat>)
    requires from < |hay| && needle != "" && !IsSeparator(needle[0]) && !IsSeparator(hay[from])
    ensures Alignment(needle, hay, from, places) && |places| <= |needle|
    ensures Points(needle, hay, places) == ScoreLater(needle, hay, from)
    decreases |hay| - from, 0
  {
    hide Alignment, Points, NextSeparator, IsSeparator, GetScore;
    places := [];
    NoPlaces(needle, hay, from);
    if NextSeparator(hay[from..]).Some? {
      NextSeparatorAt(hay, from);
      var k := |hay| - |NextSeparator(hay[from..]).value|;
      places := ScoreIsReached(needle, hay, k);
      AlignmentSize(needle, hay, k, places);
      AfterSeparator(needle, hay, from, k, places);
    } else {
      NothingScores(needle);
    }
  }

  lemma NoPlaces(needle: string, hay: string, from: nat)
    ensures Alignment(needle, hay, from, [])
    ensures Points(needle, hay, []) == if needle == "" then 1 else 0
  {
  }

  /** A first place before a tail. */
  lemma HereAligned(needle: string, hay: string, from: nat, at: nat, rest: seq<nat>)
    requires needle != "" && Fits(needle[0], hay, from, at) && Alignment(needle[1..], hay, at + 1, rest)
    ensures Alignment(needle, hay, from, [at] + rest) && |rest| < |needle|
    ensures Points(needle, hay, [at] + rest) == (if IsSeparator(needle[0]) then 0 else 1 + WordEnd(hay, at)) + Points(needle[1..], hay, rest)
  {
    hide Fits, IsSeparator;
    var places := [at] + rest;
    assert places[1..] == rest;
    AlignmentTail(needle, hay, from, places);
  }

  /** From a separator on, a first character stands at the start of a word. */
  lemma AfterSeparator(needle: string, hay: string, from: nat, k: nat, places: seq<nat>)
    requires needle != "" && !IsSeparator(needle[0]) && from <= k < |hay| && IsSeparator(hay[k])
    requires Alignment(needle, hay, k, places) || Alignment(needle, hay, k + 1, places)
    ensures Alignment(needle, hay, from, places)
  {
    var begin := if Alignment(needle, hay, k, places) then k else k + 1;
    if places != [] { assert Placed(needle, hay, begin, places, 0); }
    OtherBeginning(needle, hay, begin, from, places);
  }

  /** get_score is the maximum over all alignments. */
  lemma ScoreIsMaximum(needle: string, hay: string)
    ensures forall places | Alignment(needle, hay, 0, places) :: Points(needle, hay, places) <= GetScore(needle, Some(hay))
    ensures exists places :: Alignment(needle, hay, 0, places) && Points(needle, hay, places) == GetScore(needle, Some(hay))
  {
    assert hay[0..] == hay;
    forall places | Alignment(needle, hay, 0, places)
      ensures Points(needle, hay, places) <= GetScore(needle, Some(hay))
    {
      ScoreIsUpperBound(needle, hay, 0, places);
    }
    var best := ScoreIsReached(needle, hay, 0);
  }

  // ----- Ranking rows

  /** A right arrow between spaces. */
  const PATH_SEPARATOR: string := [' ', 0xE2 as char, 0x86 as char, 0x92 as char, ' ']

  /** `mark` occurs in `s` at `i`. */
  predicate OccursAt(s: string, mark: string, i: nat) {
    i <= |s| && StartsWith(s[i..], mark)
  }

  /** strrchr and g_strrstr: the last occurrence of `mark`. */
  function LastOccurrence(s: string, mark: string, end: nat): (at: Option<nat>)
    requires end <= |s|
    ensures at.Some? ==> at.value < end && OccursAt(s, mark, at.value)
    ensures at.Some? ==> forall i | at.value < i < end :: !OccursAt(s, mark, i)
    ensures at.None? ==> forall i: nat | i < end :: !OccursAt(s, mark, i)
  {
    if end == 0 then None
    else if OccursAt(s, mark, end - 1) then Some(end - 1)
    else LastOccurrence(s, mark, end - 1)
  }

  /** Where path_basename cuts; what it returns still begins with the separator it found. */
  function BasenameCut(path: string): (cut: nat)
    ensures cut <= |path|
  {
    var p1 := LastOccurrence(path, "/", |path|);
    var p2 := LastOccurrence(path, PATH_SEPARATOR, |path|);
    if p1.None? && p2.None? then 0
    else if p1.Some? && (p2.None? || p1.value > p2.value) then p1.value
    else p2.value
  }

  function PathBasename(path: string): string {
    path[BasenameCut(path)..]
  }

  predicate BasenameStart(path: string, i: nat) {
    i < |path| && (OccursAt(path, "/", i) || OccursAt(path, PATH_SEPARATOR, i))
  }

  /** The base name is the shortest suffix that begins with a slash or an arrow, or everything if there is none. */
  lemma BasenameIsShortest(path: string, cut: nat)
    ensures cut == BasenameCut(path) <==>
      (BasenameStart(path, cut) || cut == 0) && forall j: nat | BasenameStart(path, j) :: j <= cut
  {
    var c := BasenameCut(path);
    assert BasenameStart(path, c) || c == 0;
    assert forall j: nat | BasenameStart(path, j) :: j <= c;
  }

  /** key_score of an entry and a row's text, both case-folded. */
  function KeyScore(key: string, text: string): (score: int)
    ensures 0 <= score <= 3 * |key| + 1
  {
    GetScore(key, Some(text)) + GetScore(key, Some(PathBasename(text))) / 2
  }

  /** The best alignment in the whole text counts fully, the best one in its base name half. */
  lemma KeyScoreIsBest(key: string, text: string)
    ensures forall p, q | Alignment(key, text, 0, p) && Alignment(key, PathBasename(text), 0, q) ::
      Points(key, text, p) + Points(key, PathBasename(text), q) / 2 <= KeyScore(key, text)
    ensures exists p, q ::
      Alignment(key, text, 0, p) && Alignment(key, PathBasename(text), 0, q) &&
      Points(key, text, p) + Points(key, PathBasename(text), q) / 2 == KeyScore(key, text)
  {
    hide GetScore, Alignment, Points, PathBasename;
    ScoreIsMaximum(key, text);
    ScoreIsMaximum(key, PathBasename(text));
  }

  /** COL_TYPE_MENU_ITEM and COL_TYPE_FILE; what a key asks for may also be any of them. */
  datatype RowType = MenuItem | File

  datatype Wanted = Only(rowType: RowType) | Any

  datatype Row = Row(text: string, rowType: RowType)

  predicate Matches(wanted: Wanted, row: Row) {
    wanted.Any? || wanted.rowType == row.rowType
  }

  /** get_key: a prefix selects the type of row. */
  function GetKey(entry: string): (string, Wanted) {
    if StartsWith(entry, "f:") then (entry[2..], Only(File))
    else if StartsWith(entry, "c:") then (entry[2..], Only(MenuItem))
    else (entry, Any)
  }

  /** The two prefixes. */
  lemma KeyOf(key: string)
    ensures GetKey("f:" + key) == (key, Only(File)) && GetKey("c:" + key) == (key, Only(MenuItem))
    ensures GetKey(key).1.Any? ==> GetKey(key).0 == key
    ensures GetKey(key).1.Only? ==> key == (if GetKey(key).1.rowType == File then "f:" else "c:") + GetKey(key).0
  {
    assert ("f:" + key)[..2] == "f:" && ("c:" + key)[..2] == "c:";
  }

  function RowScore(key: string, wanted: Wanted, row: Row): int {
    KeyScore(key, row.text) - if Matches(wanted, row) then 0 else 0xf000
  }

  /** sort_func, negative if `a` goes first. */
  function Compare(entry: string, a: Row, b: Row): int {
    var (key, wanted) := GetKey(entry);
    RowScore(key, wanted, b) - RowScore(key, wanted, a)
  }

  /** sort_func is a total preorder. */
  lemma CompareIsTotalPreorder(entry: string, a: Row, b: Row, c: Row)
    ensures Compare(entry, a, b) == -Compare(entry, b, a)
    ensures Compare(entry, a, b) <= 0 && Compare(entry, b, c) <= 0 ==> Compare(entry, a, c) <= 0
    ensures Compare(entry, a, a) == 0
  {
  }

  /** Every row of the requested type goes before every other row. */
  ghost predicate RightTypeFirst(entry: string) {
    forall a, b | Matches(GetKey(entry).1, a) && !Matches(GetKey(entry).1, b) :: Compare(entry, a, b) < 0
  }

  /** How many characters of `s` are no separators. */
  function Letters(s: string): (n: nat)
    ensures n <= |s|
  {
    if s == "" then 0 else (if IsSeparator(s[0]) then 0 else 1) + Letters(s[1..])
  }

  lemma {:induction false} WorthBound(needle: string, hay: string, places: seq<nat>)
    requires |places| <= |needle|
    ensures Worth(needle, hay, places) <= 2 * Letters(needle)
  {
    hide WordEnd, IsSeparator;
    if places != [] { WorthBound(needle[1..], hay, places[1..]); }
  }

  /** Separators of the key score nothing. */
  lemma LettersBound(key: string, text: string)
    ensures GetScore(key, Some(text)) <= 2 * Letters(key) + 1
  {
    hide GetScore, Worth, Letters;
    var places := ScoreIsReached(key, text, 0);
    assert text[0..] == text;
    WorthBound(key, text, places);
  }

  lemma ShortKeysRank(entry: string)
    requires 3 * Letters(GetKey(entry).0) + 1 < 0xf000
    ensures RightTypeFirst(entry)
  {
    hide GetScore, PathBasename, GetKey, Letters;
    var (key, wanted) := GetKey(entry);
    forall a, b | Matches(wanted, a) && !Matches(wanted, b)
      ensures Compare(entry, a, b) < 0
    {
      LettersBound(key, b.text);
      LettersBound(key, PathBasename(b.text));
    }
  }

  // ----- The bound is sharp

  /** The characters of `s` that are no separators, each with a space after it, and a space for each separator. */
  function Spaced(s: string): (t: string)
    ensures forall i | 0 <= i < |t| && IsSeparator(t[i]) :: t[i] == ' '
    ensures forall i | 0 < i < |t| :: IsSeparator(t[i - 1]) || IsSeparator(t[i])
  {
    if s == "" then "" else (if IsSeparator(s[0]) then " " else [s[0], ' ']) + Spaced(s[1..])
  }

  /** The spaced letters with something in front that ends in spaces from `from` on. */
  lemma {:induction false} SpacedAlignment(key: string, front: string, from: nat) returns (places: seq<nat>)
    requires from <= |front| && forall i | from <= i < |front| :: front[i] == ' '
    ensures Alignment(key, front + Spaced(key), from, places) && |places| == |key|
    ensures Points(key, front + Spaced(key), places) == 2 * Letters(key) + 1
  {
    hide Alignment, Points, Spaced;
    var hay := front + Spaced(key);
    if key == "" {
      places := [];
      NoPlaces(key, hay, from);
    } else {
      var front' := front + if IsSeparator(key[0]) then " " else [key[0], ' '];
      SpacedStep(key, front);
      var at := if IsSeparator(key[0]) then from else |front|;
      assert Fits(key[0], hay, from, at) by { SpacedFits(key, front, from); }
      assert forall i | at + 1 <= i < |front'| :: front'[i] == ' ';
      var rest := SpacedAlignment(key[1..], front', at + 1);
      HereAligned(key, hay, from, at, rest);
      places := [at] + rest;
    }
  }

  lemma SpacedStep(key: string, front: string)
    requires key != ""
    ensures front + Spaced(key) == front + (if IsSeparator(key[0]) then " " else [key[0], ' ']) + Spaced(key[1..])
  {
    Assoc(front, if IsSeparator(key[0]) then " " else [key[0], ' '], Spaced(key[1..]));
  }

  lemma Assoc(a: string, b: string, c: string)
    ensures a + (b + c) == a + b + c
  {
  }

  lemma SpacedFits(key: string, front: string, from: nat)
    requires key != "" && from <= |front| && forall i | from <= i < |front| :: front[i] == ' '
    ensures var hay, at := front + Spaced(key), if IsSeparator(key[0]) then from else |front|;
      Fits(key[0], hay, from, at) && (!IsSeparator(key[0]) ==> WordEnd(hay, at) == 1)
  {
    hide Spaced;
    SpacedStep(key, front);
    assert IsSeparator(' ');
  }

  lemma SpacedHasNoBasename(key: string)
    ensures PathBasename(Spaced(key)) == Spaced(key)
  {
    hide Spaced;
    var t := Spaced(key);
    forall i: nat | i < |t|
      ensures !OccursAt(t, "/", i) && !OccursAt(t, PATH_SEPARATOR, i)
    {
      MarkOccurs(t, i);
    }
  }

  lemma MarkOccurs(s: string, i: nat)
    ensures OccursAt(s, "/", i) ==> i < |s| && s[i] == '/' && IsSeparator(s[i])
    ensures OccursAt(s, PATH_SEPARATOR, i) ==> i + 2 < |s| && !IsSeparator(s[i + 1]) && !IsSeparator(s[i + 2])
  {
    OccursChars(s, "/", i);
    OccursChars(s, PATH_SEPARATOR, i);
    if OccursAt(s, "/", i) { assert s[i + 0] == '/'; }
    if OccursAt(s, PATH_SEPARATOR, i) { assert s[i + 1] == PATH_SEPARATOR[1] && s[i + 2] == PATH_SEPARATOR[2]; }
  }

  lemma OccursChars(s: string, mark: string, i: nat)
    ensures OccursAt(s, mark, i) ==> i + |mark| <= |s| && forall k | 0 <= k < |mark| :: s[i + k] == mark[k]
  {
    if OccursAt(s, mark, i) {
      forall k | 0 <= k < |mark|
        ensures s[i + k] == mark[k]
      {
        assert s[i..][..|mark|][k] == s[i + k];
      }
    }
  }

  /** A key scores as high as its letters allow against its own spaced letters. */
  lemma SpacedScores(key: string)
    ensures KeyScore(key, Spaced(key)) == 3 * Letters(key) + 1
  {
    hide GetScore, Spaced, Alignment;
    var places := SpacedAlignment(key, "", 0);
    assert "" + Spaced(key) == Spaced(key);
    ScoreIsMaximum(key, Spaced(key));
    LettersBound(key, Spaced(key));
    SpacedHasNoBasename(key);
  }

  /** If a type is asked for, the ranking by type is right exactly below the bound. */
  lemma RightTypeFirstExactly(entry: string)
    ensures RightTypeFirst(entry) <==> GetKey(entry).1.Any? || 3 * Letters(GetKey(entry).0) + 1 < 0xf000
  {
    hide KeyScore, GetKey;
    var (key, wanted) := GetKey(entry);
    if 3 * Letters(key) + 1 < 0xf000 {
      ShortKeysRank(entry);
    } else if wanted.Only? {
      var right := Row("", wanted.rowType);
      var wrong := Row(Spaced(key), if wanted.rowType == File then MenuItem else File);
      SpacedScores(key);
      EmptyScores(key);
      assert Compare(entry, right, wrong) >= 0;
    }
  }

  lemma EmptyScores(key: string)
    requires key != ""
    ensures KeyScore(key, "") == 0
  {
  }
}
