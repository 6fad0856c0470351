/** Small shared vocabulary. */
module Common {

  datatype Option<+T> = None | Some(value: T)

  /** strncpy into a zeroed buffer of `size + 1` bytes. */
  function Truncate(s: string, size: nat): (t: string)
    ensures |t| <= size
    ensures |s| <= size ==> t == s
  {
    if |s| <= size then s else s[..size]
  }

  predicate StartsWith(s: string, prefix: string) {
    |prefix| <= |s| && s[..|prefix|] == prefix
  }

  /** The paired characters that the autoclose plugin knows, each with its pair. */
  const PAIRS: map<char, (char, char)> := map[
    '(' := ('(', ')'), ')' := ('(', ')'), '{' := ('{', '}'), '}' := ('{', '}'), '[' := ('[', ']'), ']' := ('[', ']'),
    '<' := ('<', '>'), '>' := ('<', '>'), '\'' := ('\'', '\''), '"' := ('"', '"'), '`' := ('`', '`')]

  predicate IsQuote(c: char) {
    c == '\'' || c == '"'
  }

  /** An element of a nonempty set. */
  lemma Member<T>(s: set<T>) returns (x: T)
    requires s != {}
    ensures x in s
  {
    x :| x in s;
  }
}
