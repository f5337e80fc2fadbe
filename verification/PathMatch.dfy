/** `pathMatch`: the backtracking matcher for '?' and '*', against the meaning of a pattern. */
module PathMatch {

  /** `osTolower` on ASCII letters. */
  function ToLower(c: char): (r: char)
    ensures c != '\0' ==> r != '\0'
  {
    if 'A' <= c <= 'Z' then (c as int + 32) as char else c
  }

  /** The same character, or the same ASCII letter in the other case. */
  predicate IsSameLetter(a: char, b: char)
  {
    || a == b
    || ('A' <= a <= 'Z' && b as int == a as int - 'A' as int + 'a' as int)
    || ('A' <= b <= 'Z' && a as int == b as int - 'A' as int + 'a' as int)
  }

  lemma ToLowerMeaning(a: char, b: char)
    ensures ToLower(a) == ToLower(b) <==> IsSameLetter(a, b)
    ensures !('A' <= a <= 'Z') ==> ToLower(a) == a
    ensures 'A' <= a <= 'Z' ==> 'a' <= ToLower(a) <= 'z'
  {
  }

  /**
   * What a pattern means: '*' stands for any text, '?' for any character, and everything else for
   * itself up to case.
   */
  ghost predicate Matches(path: string, pattern: string)
    decreases |pattern|
  {
    if pattern == "" then path == ""
    else if pattern[0] == '*' then exists n :: 0 <= n <= |path| && Matches(path[n..], pattern[1..])
    else
      && path != ""
      && (pattern[0] == '?' || IsSameLetter(path[0], pattern[0]))
      && Matches(path[1..], pattern[1..])
  }

  /** The character at offset `i` of a NUL-terminated string. */
  function CharAt(s: string, i: nat): (c: char)
    requires i <= |s|
  {
    if i < |s| then s[i] else '\0'
  }

  lemma StarEmpty(pattern: string)
    requires pattern != "" && pattern[0] == '*'
    ensures Matches("", pattern) <==> Matches("", pattern[1..])
  {
    if Matches("", pattern) {
      var n :| 0 <= n <= |""| && Matches(""[n..], pattern[1..]);
      assert ""[n..] == "";
    }
    assert ""[0..] == "";
  }

  /** '*' stands for nothing, or takes one more character. */
  lemma StarStep(path: string, pattern: string)
    requires path != "" && pattern != "" && pattern[0] == '*'
    ensures Matches(path, pattern) <==> Matches(path, pattern[1..]) || Matches(path[1..], pattern)
  {
    var rest := pattern[1..];
    if Matches(path, pattern) {
      var n :| 0 <= n <= |path| && Matches(path[n..], rest);
      if n == 0 {
        assert path[0..] == path;
      } else {
        assert path[n..] == path[1..][n - 1..];
        assert 0 <= n - 1 <= |path[1..]|;
      }
    }
    if Matches(path, rest) {
      assert path[0..] == path;
    }
    if Matches(path[1..], pattern) {
      var n :| 0 <= n <= |path[1..]| && Matches(path[1..][n..], rest);
      assert path[1..][n..] == path[n + 1..];
      assert 0 <= n + 1 <= |path|;
    }
  }

  lemma CharStep(path: string, pattern: string)
    requires pattern != "" && pattern[0] != '*'
    ensures path == "" ==> !Matches(path, pattern)
    ensures path != "" && pattern[0] != '?' && !IsSameLetter(path[0], pattern[0]) ==> !Matches(path, pattern)
    ensures path != "" && (pattern[0] == '?' || IsSameLetter(path[0], pattern[0])) ==>
              (Matches(path, pattern) <==> Matches(path[1..], pattern[1..]))
  {
  }

  /** `pathMatch`. */
  method MatchPath(path: string, pattern: string) returns (r: bool)
    requires '\0' !in path && '\0' !in pattern
    ensures r <==> Matches(path, pattern)
    decreases |pattern|
  {
    hide Matches;
    var i, j := 0, 0;
    assert path[0..] == path && pattern[0..] == pattern;
    while CharAt(pattern, j) != '\0'
      invariant i <= |path| && j <= |pattern|
      invariant Matches(path[i..], pattern[j..]) <==> Matches(path, pattern)
      decreases |pattern| - j, |path| - i
    {
      assert pattern[j..][1..] == pattern[j + 1..];
      assert i < |path| ==> path[i..][1..] == path[i + 1..];
      if pattern[j] == '?' {
        CharStep(path[i..], pattern[j..]);
        if CharAt(path, i) == '\0' {
          return false;
        }
        i, j := i + 1, j + 1;
      } else if pattern[j] == '*' {
        if CharAt(path, i) == '\0' {
          assert path[i..] == "";
          StarEmpty(pattern[j..]);
          j := j + 1;
        } else {
          StarStep(path[i..], pattern[j..]);
          var found := MatchPath(path[i..], pattern[j + 1..]);
          if found {
            return true;
          }
          i := i + 1;
        }
      } else {
        CharStep(path[i..], pattern[j..]);
        if ToLower(CharAt(path, i)) != ToLower(CharAt(pattern, j)) {
          return false;
        }
        i, j := i + 1, j + 1;
      }
    }
    assert pattern[j..] == "";
    MatchesNothing(path[i..]);
    r := CharAt(path, i) == '\0' && CharAt(pattern, j) == '\0';
  }

  lemma MatchesNothing(path: string)
    ensures Matches(path, "") <==> path == ""
  {
  }
}
