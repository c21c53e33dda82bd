/** `utils::makeSimpleRegex` (app/source/utils.cpp): the POSIX basic
    regular-expression pattern built from a shell-style wildcard. Only the
    pattern string is modelled; compiling and matching it is not. */
module SimpleRegex {
  import opened Wrappers

  /** The characters that are special in a POSIX basic expression outside
      a bracket and that the builder escapes. */
  predicate IsEscaped(ch: char) { ch == '.' || ch == '[' || ch == '\\' || ch == '^' || ch == '$' }

  /** The pattern text contributed by one wildcard character. */
  function Piece(ch: char): (r: string)
  {
    if ch == '*' then ".*"
    else if ch == '?' then "."
    else if IsEscaped(ch) then ['\\', ch]
    else [ch]
  }

  /** The pattern for a whole wildcard: the pieces of its characters, in
      order. */
  function Pattern(glob: string): (r: string)
    ensures |r| >= |glob|
  {
    if |glob| == 0 then "" else Piece(glob[0]) + Pattern(glob[1..])
  }

  /** An independent reading of a pattern back into the wildcard it came
      from: `.*` is `*`, a lone `.` is `?`, a backslash quotes the next
      character, and anything else stands for itself. Text the builder
      never produces (a dangling backslash, an unquoted `*`, `[`, `^` or
      `$`) has no wildcard. */
  function Glob(pattern: string): (r: Option<string>)
    decreases |pattern|
  {
    if |pattern| == 0 then Some("")
    else if pattern[0] == '.' then
      if |pattern| >= 2 && pattern[1] == '*' then
        var rest :- Glob(pattern[2..]); Some("*" + rest)
      else
        var rest :- Glob(pattern[1..]); Some("?" + rest)
    else if pattern[0] == '\\' then
      if |pattern| >= 2 && IsEscaped(pattern[1]) then
        var rest :- Glob(pattern[2..]); Some([pattern[1]] + rest)
      else None
    else if pattern[0] in {'*', '[', '^', '$'} then None
    else
      var rest :- Glob(pattern[1..]); Some([pattern[0]] + rest)
  }

  /** Every wildcard is recovered from its pattern, so the builder maps
      distinct wildcards to distinct patterns. */
  lemma {:induction false} GlobOfPattern(glob: string)
    ensures Glob(Pattern(glob)) == Some(glob)
  {
    if |glob| > 0 {
      var ch := glob[0];
      var tail := Pattern(glob[1..]);
      GlobOfPattern(glob[1..]);
      assert Pattern(glob) == Piece(ch) + tail;
      if ch == '*' {
        assert (Piece(ch) + tail)[2..] == tail;
      } else if ch == '?' {
        assert (Piece(ch) + tail)[1..] == tail;
        assert |tail| >= 1 ==> tail[0] != '*' by {
          if |glob[1..]| > 0 {
            assert tail == Piece(glob[1..][0]) + Pattern(glob[1..][1..]);
          }
        }
      } else if IsEscaped(ch) {
        assert (Piece(ch) + tail)[2..] == tail;
      } else {
        assert (Piece(ch) + tail)[1..] == tail;
      }
      assert [ch] + glob[1..] == glob;
    }
  }

  lemma PatternIsInjective(a: string, b: string)
    requires Pattern(a) == Pattern(b)
    ensures a == b
  {
    GlobOfPattern(a);
    GlobOfPattern(b);
  }
}
