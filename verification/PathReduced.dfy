/**
 * When `pathCanonicalize` reduces a path completely. Its test for a previous ".." compares two
 * characters only, so a name such as "..data" is taken for ".." and a ".." behind it stays.
 */
module PathReduced {
  import opened PathSpec
  import opened PathParts

  /** A ".." behind a name that merely starts with two dots, in a place where the short test is used. */
  predicate Blocked(abs: bool, at: seq<string>, name: string)
  {
    name == ".." && at != [] && at[|at| - 1] != ".." && Sticky(abs, at)
  }

  /** Walking along `s`, no ".." is blocked. */
  predicate Reduces(abs: bool, at: seq<string>, s: string)
    decreases |s|
  {
    var k := Cut(s);
    && !Blocked(abs, at, s[..k])
    && (k < |s| ==> Reduces(abs, Step(abs, at, s[..k]), s[k + 1..]))
  }

  /** A location: ".." only leads upwards from where a relative path starts. */
  ghost predicate IsNormal(abs: bool, at: seq<string>)
  {
    && (abs ==> ".." !in at)
    && forall i | 0 < i < |at| :: at[i] == ".." ==> at[i - 1] == ".."
  }

  /** A name with a ".." behind it was written: the text is not reduced. */
  ghost predicate IsStuck(parts: seq<string>)
  {
    exists i :: 0 < i < |parts| && parts[i] == ".." && parts[i - 1] != ".."
  }

  // ---------------------------------------------------------------- walking

  lemma ReducesName(abs: bool, at: seq<string>, name: string, rest: string)
    requires forall i | 0 <= i < |name| :: !IsSlash(name[i])
    requires rest != "" ==> IsSlash(rest[0])
    ensures Reduces(abs, at, name + rest)
       <==> !Blocked(abs, at, name) && (rest != "" ==> Reduces(abs, Step(abs, at, name), rest[1..]))
  {
    hide Step, Blocked;
    var s := name + rest;
    CutAt(s, |name|);
    assert s[..|name|] == name;
    if rest != "" {
      assert s[|name| + 1..] == rest[1..];
    }
  }

  lemma ReducesNothing(abs: bool, at: seq<string>)
    ensures Reduces(abs, at, "")
  {
  }

  lemma {:induction false} ReducesSkip(abs: bool, at: seq<string>, s: string)
    ensures Reduces(abs, at, SkipSlashes(s)) <==> Reduces(abs, at, s)
    decreases |s|
  {
    if s != "" && IsSlash(s[0]) {
      ReducesSkip(abs, at, s[1..]);
      assert "" + s == s;
      ReducesName(abs, at, "", s);
    }
  }

  /** Squeezing separators does not change whether a path reduces. */
  lemma {:induction false} ReducesSqueeze(abs: bool, at: seq<string>, s: string)
    ensures Reduces(abs, at, Squeeze(s)) <==> Reduces(abs, at, s)
    decreases |s|
  {
    hide Step, Blocked, Reduces;
    var k := Cut(s);
    var name, rest := s[..k], s[k..];
    assert s == name + rest;
    SqueezeName(name, rest);
    ReducesName(abs, at, name, rest);
    if rest == "" {
      assert Squeeze(rest) == "";
    } else {
      var tail := SkipSlashes(rest[1..]);
      assert Squeeze(rest) == "/" + Squeeze(tail);
      ReducesName(abs, at, name, "/" + Squeeze(tail));
      assert ("/" + Squeeze(tail))[1..] == Squeeze(tail);
      ReducesSqueeze(abs, Step(abs, at, name), tail);
      ReducesSkip(abs, Step(abs, at, name), rest[1..]);
    }
  }

  lemma StepNormal(abs: bool, at: seq<string>, name: string)
    requires IsNormal(abs, at)
    ensures IsNormal(abs, Step(abs, at, name))
  {
    var r := Step(abs, at, name);
    assert forall i | 0 <= i < |at| && i < |r| :: r[i] == at[i];
  }

  lemma {:induction false} RunNormal(abs: bool, at: seq<string>, parts: seq<string>)
    requires IsNormal(abs, at) && AreNames(at) && AreNames(parts)
    ensures IsNormal(abs, Run(abs, at, parts)) && AreNames(Run(abs, at, parts))
    decreases |parts|
  {
    if parts != [] {
      StepNormal(abs, at, parts[0]);
      assert IsName(parts[0]) && AreNames(parts[1..]);
      RunNormal(abs, Step(abs, at, parts[0]), parts[1..]);
    }
  }

  // ---------------------------------------------------------------- one component

  /** A location that takes in a component that is not blocked is the next location. */
  lemma TakeReduced(abs: bool, parts: seq<string>, name: string)
    requires IsNormal(abs, parts) && !Blocked(abs, parts, name)
    ensures Take(abs, parts, name) == Step(abs, parts, name)
  {
  }

  lemma TakeBlocked(abs: bool, parts: seq<string>, name: string)
    requires Blocked(abs, parts, name)
    ensures IsStuck(Take(abs, parts, name))
  {
    var r := Take(abs, parts, name);
    assert r[|parts|] == ".." && r[|parts| - 1] != "..";
  }

  /** What is stuck stays so. */
  lemma StuckStays(abs: bool, parts: seq<string>, name: string)
    requires IsStuck(parts)
    ensures IsStuck(Take(abs, parts, name))
  {
    var i :| 0 < i < |parts| && parts[i] == ".." && parts[i - 1] != "..";
    var r := Take(abs, parts, name);
    assert i < |r| && r[i] == parts[i] && r[i - 1] == parts[i - 1];
  }

  lemma NormalIsFree(abs: bool, parts: seq<string>)
    requires IsNormal(abs, parts)
    ensures !IsStuck(parts)
  {
  }

  /** The components written so far, when `rest` of the path `s` is still to be read. */
  ghost predicate Tracks(abs: bool, parts: seq<string>, s: string, rest: string)
  {
    if IsStuck(parts) then !Reduces(abs, [], s)
    else
      && IsNormal(abs, parts) && parts == Run(abs, [], parts)
      && (Reduces(abs, [], s) <==> Reduces(abs, parts, rest))
  }

  /** The components of the result: they are the location itself if and only if the path reduces. */
  ghost predicate Settled(abs: bool, parts: seq<string>, s: string)
  {
    if IsStuck(parts) then !Reduces(abs, [], s)
    else parts == Run(abs, [], parts) && Reduces(abs, [], s)
  }

  lemma TracksStart(abs: bool, s: string)
    ensures Tracks(abs, [], s, s)
  {
    hide Reduces;
    RunNothing(abs);
  }

  lemma TracksNext(abs: bool, parts: seq<string>, s: string, name: string, rest: string)
    requires Tracks(abs, parts, s, name + rest) && AreNames(parts)
    requires NUL !in name && forall i | 0 <= i < |name| :: !IsSlash(name[i])
    requires rest != "" ==> IsSlash(rest[0])
    ensures var next := Take(abs, parts, name);
            if rest != "" then Tracks(abs, next, s, rest[1..]) else Settled(abs, next, s)
  {
    hide Reduces, Take, Step, Run, IsStuck, IsNormal, Blocked;
    if IsStuck(parts) {
      StuckStays(abs, parts, name);
    } else {
      ReducesName(abs, parts, name, rest);
      if Blocked(abs, parts, name) {
        TakeBlocked(abs, parts, name);
      } else {
        TakeReduced(abs, parts, name);
        TakeMeaning(abs, parts, name);
        StepNormal(abs, parts, name);
        NormalIsFree(abs, Take(abs, parts, name));
      }
    }
  }

  lemma TracksEnd(abs: bool, parts: seq<string>, s: string)
    requires Tracks(abs, parts, s, "")
    ensures Settled(abs, parts, s)
  {
    hide Reduces;
    ReducesNothing(abs, parts);
  }

  // ---------------------------------------------------------------- text and components

  /** Names can be read back from the text. */
  lemma {:induction false} BodyInjective(p: seq<string>, q: seq<string>)
    requires AreNames(p) && AreNames(q) && Body(p) == Body(q)
    ensures p == q
    decreases |p|
  {
    if p != [] && q != [] {
      FirstName(p);
      FirstName(q);
      assert AreNames(p[1..]) && AreNames(q[1..]);
      BodyInjective(p[1..], q[1..]);
      assert p == [p[0]] + p[1..] && q == [q[0]] + q[1..];
    }
  }

  lemma FirstName(p: seq<string>)
    requires p != [] && AreNames(p)
    ensures var k := Cut(Body(p));
            k < |Body(p)| && p[0] == Body(p)[..k] && Body(p[1..]) == Body(p)[k + 1..]
  {
    var s := Body(p);
    assert IsName(p[0]);
    assert s == p[0] + "/" + Body(p[1..]);
    CutAt(s, |p[0]|);
  }

  lemma FinalInjective(abs: bool, p: seq<string>, q: seq<string>, slash: bool)
    requires AreNames(p) && AreNames(q) && |p| >= 2 && Final(abs, p, slash) == Final(abs, q, slash)
    ensures p == q
  {
    FinalLength(abs, p, slash);
    assert q != [];
    RenderSnoc(abs, p);
    RenderSnoc(abs, q);
    assert Render(abs, p) == Final(abs, p, slash) + if slash then "" else "/";
    assert Render(abs, q) == Final(abs, q, slash) + if slash then "" else "/";
    assert Body(p) == Render(abs, p)[if abs then 1 else 0..];
    assert Body(q) == Render(abs, q)[if abs then 1 else 0..];
    BodyInjective(p, q);
  }

  lemma FinalLength(abs: bool, p: seq<string>, slash: bool)
    requires AreNames(p) && |p| >= 2
    ensures |Final(abs, p, slash)| > 2
  {
    var init := p[..|p| - 1];
    assert IsName(p[0]) && IsName(p[|p| - 1]) && p[0] == init[0];
    assert |Body(init)| >= |init[0]| + 1;
  }

  /** The finished text is that of the location exactly when the path reduces. */
  lemma SettledText(abs: bool, parts: seq<string>, s: string, slash: bool)
    requires Settled(abs, parts, s) && AreNames(parts)
    ensures Final(abs, parts, slash) == Final(abs, Run(abs, [], parts), slash) <==> Reduces(abs, [], s)
  {
    hide Reduces, Final, Run;
    if IsStuck(parts) {
      RunNormal(abs, [], parts);
      NormalIsFree(abs, Run(abs, [], parts));
      if Final(abs, parts, slash) == Final(abs, Run(abs, [], parts), slash) {
        FinalInjective(abs, parts, Run(abs, [], parts), slash);
      }
    }
  }

  /** A path such as "/..data/.." leads to the root and is not reduced, whatever follows the two dots. */
  lemma BlockedPaths(c: string)
    requires IsName(c) && StartsWithDots(c) && c != ".."
    ensures var s := "/" + (c + "/.."); Locate(s) == Place(true, []) && !Reduces(true, [], s)
  {
    hide Walk, Reduces;
    var rest := c + "/..";
    var s := "/" + rest;
    assert "" + s == s && s[1..] == rest && IsAbsolute(s);
    WalkName(true, [], "", s);
    ReducesName(true, [], "", s);
    WalkName(true, [], c, "/..");
    ReducesName(true, [], c, "/..");
    BlockedEnd(c);
  }

  lemma BlockedEnd(c: string)
    requires IsName(c) && StartsWithDots(c) && c != ".."
    ensures Step(true, [], c) == [c]
    ensures Walk(true, [c], "/.."[1..]) == [] && !Reduces(true, [c], "/.."[1..])
  {
    hide Walk, Reduces;
    assert "/.."[1..] == ".." && ".." + "" == "..";
    WalkName(true, [c], "..", "");
    ReducesName(true, [c], "..", "");
  }
}
