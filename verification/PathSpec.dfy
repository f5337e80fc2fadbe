/**
 * The lexical meaning of a path: the location reached by walking its components. "." and empty
 * components stay put, ".." goes up; at an absolute root it is dropped, and in a relative path
 * that has nothing left to leave it is kept.
 */
module PathSpec {

  predicate IsSlash(c: char)
  {
    c == '/' || c == '\\'
  }

  /** The first separator, or the length. */
  function Cut(s: string): (k: nat)
    ensures k <= |s|
    ensures k < |s| ==> IsSlash(s[k])
    ensures forall i | 0 <= i < k :: !IsSlash(s[i])
  {
    if s == "" || IsSlash(s[0]) then 0 else 1 + Cut(s[1..])
  }

  /** One component, taken from the location `at`. */
  function Step(abs: bool, at: seq<string>, name: string): (r: seq<string>)
  {
    if name == "" || name == "." then at
    else if name == ".." then
      if at != [] && at[|at| - 1] != ".." then at[..|at| - 1]
      else if abs then at
      else at + [".."]
    else at + [name]
  }

  /** The location reached from `at` by the components of `s`. */
  function Walk(abs: bool, at: seq<string>, s: string): (r: seq<string>)
    decreases |s|
  {
    var k := Cut(s);
    var next := Step(abs, at, s[..k]);
    if k == |s| then next else Walk(abs, next, s[k + 1..])
  }

  predicate IsAbsolute(s: string)
  {
    s != "" && IsSlash(s[0])
  }

  datatype Place = Place(abs: bool, at: seq<string>)

  /** Where a path leads. */
  function Locate(s: string): (p: Place)
  {
    Place(IsAbsolute(s), Walk(IsAbsolute(s), [], s))
  }

  lemma CutAt(s: string, k: nat)
    requires k <= |s| && (k < |s| ==> IsSlash(s[k])) && forall i | 0 <= i < k :: !IsSlash(s[i])
    ensures Cut(s) == k
  {
  }

  // ---------------------------------------------------------------- runs of separators

  /** `s` without the separators it starts with. */
  function SkipSlashes(s: string): (r: string)
    ensures |r| <= |s|
    ensures r != "" ==> !IsSlash(r[0])
  {
    if s == "" || !IsSlash(s[0]) then s else SkipSlashes(s[1..])
  }

  /** Every run of separators becomes one forward slash. */
  function Squeeze(s: string): (r: string)
    decreases |s|
  {
    if s == "" then ""
    else if IsSlash(s[0]) then "/" + Squeeze(SkipSlashes(s[1..]))
    else [s[0]] + Squeeze(s[1..])
  }

  /** No backslash, no double slash. */
  predicate IsSqueezed(s: string)
  {
    && (forall i | 0 <= i < |s| :: s[i] != '\\')
    && (forall i | 0 <= i < |s| - 1 :: s[i] == '/' ==> s[i + 1] != '/')
  }

  lemma {:induction false} SqueezeIsSqueezed(s: string)
    ensures IsSqueezed(Squeeze(s)) && |Squeeze(s)| <= |s|
    ensures Squeeze(s) != "" <==> s != ""
    ensures s != "" ==> (Squeeze(s)[0] == '/' <==> IsSlash(s[0]))
    ensures s != "" && !IsSlash(s[0]) ==> Squeeze(s)[0] == s[0]
    decreases |s|
  {
    if s == "" {
    } else if IsSlash(s[0]) {
      SqueezeIsSqueezed(SkipSlashes(s[1..]));
    } else {
      SqueezeIsSqueezed(s[1..]);
    }
  }

  lemma WalkSlash(abs: bool, at: seq<string>, s: string)
    requires s != "" && IsSlash(s[0])
    ensures Walk(abs, at, s) == Walk(abs, at, s[1..])
  {
    CutAt(s, 0);
    assert s[..0] == "";
  }

  lemma {:induction false} WalkSkip(abs: bool, at: seq<string>, s: string)
    ensures Walk(abs, at, SkipSlashes(s)) == Walk(abs, at, s)
    decreases |s|
  {
    if s != "" && IsSlash(s[0]) {
      WalkSkip(abs, at, s[1..]);
      WalkSlash(abs, at, s);
    }
  }

  /** A path that starts with `name` and goes on at a separator. */
  lemma WalkName(abs: bool, at: seq<string>, name: string, rest: string)
    requires forall i | 0 <= i < |name| :: !IsSlash(name[i])
    requires rest != "" ==> IsSlash(rest[0])
    ensures Walk(abs, at, name + rest)
         == if rest == "" then Step(abs, at, name) else Walk(abs, Step(abs, at, name), rest[1..])
  {
    hide Step;
    var s := name + rest;
    CutAt(s, |name|);
    assert s[..|name|] == name;
    if rest != "" {
      assert s[|name| + 1..] == rest[1..];
    }
  }

  lemma {:induction false} SqueezeName(name: string, rest: string)
    requires forall i | 0 <= i < |name| :: !IsSlash(name[i])
    ensures Squeeze(name + rest) == name + Squeeze(rest)
    decreases |name|
  {
    if name == "" {
      assert name + rest == rest;
    } else {
      assert (name + rest)[1..] == name[1..] + rest;
      SqueezeName(name[1..], rest);
      assert name == [name[0]] + name[1..];
    }
  }

  /** Squeezing separators does not change where a path leads. */
  lemma {:induction false} WalkSqueeze(abs: bool, at: seq<string>, s: string)
    ensures Walk(abs, at, Squeeze(s)) == Walk(abs, at, s)
    decreases |s|
  {
    hide Step;
    var k := Cut(s);
    var name, rest := s[..k], s[k..];
    assert s == name + rest;
    SqueezeName(name, rest);
    WalkName(abs, at, name, rest);
    if rest == "" {
      assert Squeeze(rest) == "";
      WalkName(abs, at, name, "");
    } else {
      var tail := SkipSlashes(rest[1..]);
      assert Squeeze(rest) == "/" + Squeeze(tail);
      WalkName(abs, at, name, "/" + Squeeze(tail));
      assert ("/" + Squeeze(tail))[1..] == Squeeze(tail);
      WalkSqueeze(abs, Step(abs, at, name), tail);
      WalkSkip(abs, Step(abs, at, name), rest[1..]);
    }
  }

  lemma LocateSqueeze(s: string)
    ensures Locate(Squeeze(s)) == Locate(s)
  {
    hide Walk;
    SqueezeIsSqueezed(s);
    WalkSqueeze(IsAbsolute(s), [], s);
  }
}
