/**
 * The path that `pathCanonicalize` has written so far, as a list of components, and the way it
 * takes in one more component.
 */
module PathParts {
  import opened PathSpec

  const NUL := '\0'

  /** A component that may stand in the output. */
  predicate IsName(c: string)
  {
    c != "" && c != "." && NUL !in c && forall i | 0 <= i < |c| :: !IsSlash(c[i])
  }

  predicate AreNames(parts: seq<string>)
  {
    forall i | 0 <= i < |parts| :: IsName(parts[i])
  }

  /** Each component with a slash behind it. */
  function Body(parts: seq<string>): (s: string)
  {
    if parts == [] then "" else parts[0] + "/" + Body(parts[1..])
  }

  function Render(abs: bool, parts: seq<string>): (s: string)
  {
    (if abs then "/" else "") + Body(parts)
  }

  /** The finished text, with or without a trailing slash. */
  function Final(abs: bool, parts: seq<string>, slash: bool): (s: string)
  {
    if parts == [] then
      if abs then "/" else if slash then "./" else "."
    else
      Render(abs, parts[..|parts| - 1]) + parts[|parts| - 1] + if slash then "/" else ""
  }

  /** The location reached by the components. */
  function Run(abs: bool, at: seq<string>, parts: seq<string>): (r: seq<string>)
    decreases |parts|
  {
    if parts == [] then at else Run(abs, Step(abs, at, parts[0]), parts[1..])
  }

  predicate StartsWithDots(c: string)
  {
    |c| >= 2 && c[0] == '.' && c[1] == '.'
  }

  /**
   * Whether ".." is appended instead of removing the last component. The comparison looks at two
   * characters only, except for the single component of a relative path.
   */
  predicate Sticky(abs: bool, parts: seq<string>)
    requires parts != []
  {
    var last := parts[|parts| - 1];
    if abs || |parts| > 1 then StartsWithDots(last) else last == ".."
  }

  /** Taking in one more component. */
  function Take(abs: bool, parts: seq<string>, name: string): (r: seq<string>)
  {
    if name == "" || name == "." then parts
    else if name == ".." then
      if parts == [] then if abs then [] else [".."]
      else if Sticky(abs, parts) then parts + [".."]
      else parts[..|parts| - 1]
    else parts + [name]
  }

  // ---------------------------------------------------------------- meaning

  lemma {:induction false} BodySnoc(parts: seq<string>, c: string)
    ensures Body(parts + [c]) == Body(parts) + c + "/"
    decreases |parts|
  {
    if parts == [] {
      assert parts + [c] == [c];
    } else {
      assert (parts + [c])[1..] == parts[1..] + [c];
      BodySnoc(parts[1..], c);
    }
  }

  lemma {:induction false} RunSnoc(abs: bool, at: seq<string>, parts: seq<string>, c: string)
    ensures Run(abs, at, parts + [c]) == Step(abs, Run(abs, at, parts), c)
    decreases |parts|
  {
    hide Step;
    if parts == [] {
      assert parts + [c] == [c];
    } else {
      assert (parts + [c])[1..] == parts[1..] + [c];
      RunSnoc(abs, Step(abs, at, parts[0]), parts[1..], c);
    }
  }

  lemma {:induction false} WalkBody(abs: bool, at: seq<string>, parts: seq<string>, rest: string)
    requires AreNames(parts)
    ensures Walk(abs, at, Body(parts) + rest) == Walk(abs, Run(abs, at, parts), rest)
    decreases |parts|
  {
    hide Step, Walk;
    if parts == [] {
      assert Body(parts) + rest == rest;
    } else {
      var tail := Body(parts[1..]) + rest;
      assert Body(parts) + rest == parts[0] + ("/" + tail);
      WalkName(abs, at, parts[0], "/" + tail);
      assert ("/" + tail)[1..] == tail;
      WalkBody(abs, Step(abs, at, parts[0]), parts[1..], rest);
    }
  }

  lemma WalkEmpty(abs: bool, at: seq<string>)
    ensures Walk(abs, at, "") == at
  {
    assert ""[..0] == "";
  }

  lemma RenderSnoc(abs: bool, parts: seq<string>)
    requires parts != []
    ensures Render(abs, parts) == Render(abs, parts[..|parts| - 1]) + parts[|parts| - 1] + "/"
  {
    BodySnoc(parts[..|parts| - 1], parts[|parts| - 1]);
    assert parts == parts[..|parts| - 1] + [parts[|parts| - 1]];
  }

  lemma {:induction false} FirstChar(parts: seq<string>, rest: string)
    requires AreNames(parts) && (parts == [] ==> rest == "" || !IsSlash(rest[0]))
    ensures !IsAbsolute(Body(parts) + rest)
  {
    if parts != [] {
      assert IsName(parts[0]);
    }
  }

  lemma WalkRender(abs: bool, parts: seq<string>, rest: string)
    requires AreNames(parts)
    ensures Walk(abs, [], Render(abs, parts) + rest) == Walk(abs, Run(abs, [], parts), rest)
  {
    hide Walk, Run, Body;
    WalkBody(abs, [], parts, rest);
    if abs {
      assert (Render(abs, parts) + rest)[1..] == Body(parts) + rest;
      WalkSlash(abs, [], Render(abs, parts) + rest);
    } else {
      assert Render(abs, parts) + rest == Body(parts) + rest;
    }
  }

  lemma AbsRender(abs: bool, parts: seq<string>, rest: string)
    requires AreNames(parts) && (parts == [] ==> rest == "" || !IsSlash(rest[0]))
    ensures IsAbsolute(Render(abs, parts) + rest) == abs
  {
    hide Body;
    FirstChar(parts, rest);
    assert Render(false, parts) == Body(parts);
  }

  /** The finished text leads where its components lead. */
  lemma LocateFinal(abs: bool, parts: seq<string>, slash: bool)
    requires AreNames(parts)
    ensures Locate(Final(abs, parts, slash)) == Place(abs, Run(abs, [], parts))
  {
    hide Walk, Body, Render;
    if parts == [] {
      LocateNothing();
    } else {
      var init, last := parts[..|parts| - 1], parts[|parts| - 1];
      var end := if slash then "/" else "";
      assert AreNames(init) && IsName(last);
      assert Final(abs, parts, slash) == Render(abs, init) + (last + end);
      AbsRender(abs, init, last + end);
      WalkRender(abs, init, last + end);
      WalkName(abs, Run(abs, [], init), last, end);
      assert "/"[1..] == "";
      WalkEmpty(abs, Step(abs, Run(abs, [], init), last));
      RunSnoc(abs, [], init, last);
      assert parts == init + [last];
    }
  }

  lemma {:induction false} BodyNoNul(parts: seq<string>)
    requires AreNames(parts)
    ensures NUL !in Body(parts)
  {
    if parts != [] {
      BodyNoNul(parts[1..]);
      assert IsName(parts[0]);
    }
  }

  lemma FinalNoNul(abs: bool, parts: seq<string>, slash: bool)
    requires AreNames(parts)
    ensures NUL !in Final(abs, parts, slash)
  {
    if parts != [] {
      hide Body;
      var init, last := parts[..|parts| - 1], parts[|parts| - 1];
      assert AreNames(init) && IsName(last);
      BodyNoNul(init);
    }
  }

  lemma LocateNothing()
    ensures Locate("/") == Place(true, [])
    ensures Locate(".") == Place(false, []) && Locate("./") == Place(false, [])
  {
    hide Walk;
    WalkEmpty(true, []);
    WalkEmpty(false, []);
    WalkSlash(true, [], "/");
    assert "/"[1..] == "";
    WalkName(false, [], ".", "");
    WalkName(false, [], ".", "/");
    assert "." + "" == "." && "." + "/" == "./";
  }

  /** Taking in a component is one step of the walk. */
  lemma TakeMeaning(abs: bool, parts: seq<string>, name: string)
    requires AreNames(parts) && NUL !in name && forall i | 0 <= i < |name| :: !IsSlash(name[i])
    ensures Run(abs, [], Take(abs, parts, name)) == Step(abs, Run(abs, [], parts), name)
    ensures AreNames(Take(abs, parts, name))
  {
    hide Run;
    RunNothing(abs);
    if name == "" || name == "." {
    } else if name == ".." && parts == [] {
      RunSnoc(abs, [], [], "..");
      assert [] + [".."] == [".."];
    } else if name == ".." && !Sticky(abs, parts) {
      var init, last := parts[..|parts| - 1], parts[|parts| - 1];
      assert parts == init + [last] && IsName(last) && last != "..";
      RunSnoc(abs, [], init, last);
    } else {
      RunSnoc(abs, [], parts, name);
    }
  }

  lemma RunNothing(abs: bool)
    ensures Run(abs, [], []) == []
  {
  }
}
