/** `pathCanonicalize`: the two in-place passes over a NUL-terminated path. */
module PathCanonicalize {
  import opened Bytes
  import opened PathSpec
  import opened PathParts
  import opened PathReduced

  /** The characters before the terminator. */
  function CString(s: seq<char>): (r: string)
  {
    if s == [] || s[0] == NUL then "" else [s[0]] + CString(s[1..])
  }

  lemma {:induction false} CStringAt(s: seq<char>, n: nat)
    requires n < |s| && s[n] == NUL && NUL !in s[..n]
    ensures CString(s) == s[..n]
    decreases n
  {
    if n > 0 {
      assert s[..n][0] == s[0];
      assert s[1..][..n - 1] == s[..n][1..];
      CStringAt(s[1..], n - 1);
    }
  }

  /** From offset `i` on the buffer still holds `src` and its terminator. */
  ghost predicate Holds(path: array<char>, src: string, i: nat)
    reads path
  {
    && i <= |src| < path.Length && path[|src|] == NUL && NUL !in src
    && forall x | i <= x < |src| :: path[x] == src[x]
  }

  // ---------------------------------------------------------------- first pass

  lemma SqueezeSlash(src: string, i: nat)
    requires i < |src| && IsSlash(src[i])
    ensures Squeeze(src[i..]) == "/" + Squeeze(SkipSlashes(src[i + 1..]))
  {
    assert src[i..][1..] == src[i + 1..];
  }

  lemma SqueezeChar(src: string, i: nat)
    requires i < |src| && !IsSlash(src[i])
    ensures Squeeze(src[i..]) == [src[i]] + Squeeze(src[i + 1..])
  {
    assert src[i..][1..] == src[i + 1..];
  }

  lemma SkipOne(src: string, i: nat)
    requires i <= |src|
    ensures i < |src| && IsSlash(src[i]) ==> SkipSlashes(src[i..]) == SkipSlashes(src[i + 1..])
    ensures i == |src| || !IsSlash(src[i]) ==> SkipSlashes(src[i..]) == src[i..]
  {
    if i < |src| {
      assert src[i..][1..] == src[i + 1..];
    }
  }

  /** `while(path[i] == '/' || path[i] == '\\') i++`, one separator already being known. */
  method SkipRun(path: array<char>, ghost src: string, first: nat) returns (i: nat)
    requires first < |src| && Holds(path, src, first + 1) && IsSlash(path[first])
    ensures first < i <= |src| && SkipSlashes(src[first + 1..]) == src[i..]
  {
    hide SkipSlashes;
    i := first;
    while IsSlash(path[i])
      invariant first <= i <= |src| && (i == first ==> IsSlash(path[i]))
      invariant i > first ==> SkipSlashes(src[first + 1..]) == SkipSlashes(src[i..])
      decreases |src| - i
    {
      if i > first { SkipOne(src, i); }
      i := i + 1;
    }
    SkipOne(src, i);
  }

  /** Replaces every run of separators with one slash. */
  method SqueezeInPlace(path: array<char>, ghost src: string) returns (ghost k: nat)
    requires Holds(path, src, 0)
    modifies path
    ensures k <= |src| && path[..k] == Squeeze(src) && path[k] == NUL
    ensures forall x | |src| < x < path.Length :: path[x] == old(path[x])
  {
    hide Squeeze, SkipSlashes;
    var i, w := 0, 0;
    assert src[0..] == src;
    while path[i] != NUL
      invariant w <= i && Holds(path, src, i)
      invariant path[..w] + Squeeze(src[i..]) == Squeeze(src)
      invariant forall x | |src| < x < path.Length :: path[x] == old(path[x])
      decreases |src| - i
    {
      if IsSlash(path[i]) {
        SqueezeSlash(src, i);
        PutChar(path, w, '/');
        w := w + 1;
        i := SkipRun(path, src, i);
      } else {
        SqueezeChar(src, i);
        PutChar(path, w, path[i]);
        w := w + 1;
        i := i + 1;
      }
    }
    assert src[i..] == "" && Squeeze("") == "" by { SqueezeIsSqueezed(""); }
    path[w] := NUL;
    k := w;
  }

  /** `path[w++] = c`. */
  method PutChar(path: array<char>, w: nat, c: char)
    requires w < path.Length
    modifies path
    ensures path[..w + 1] == old(path[..w]) + [c]
    ensures forall x | w < x < path.Length :: path[x] == old(path[x])
  {
    path[w] := c;
  }

  // ---------------------------------------------------------------- second pass, one component

  /** "Append a slash if necessary". */
  method AppendSlash(path: array<char>, i: nat, k: nat) returns (w: nat)
    requires k <= i < path.Length
    modifies path
    ensures forall x | i <= x < path.Length :: path[x] == old(path[x])
    ensures if path[i] == '/' then w == k + 1 && path[..w] == old(path[..k]) + "/"
            else w == k && path[..w] == old(path[..k])
  {
    w := k;
    if path[i] == '/' {
      path[k] := '/';
      w := k + 1;
    }
  }

  /** Writes `x` behind the output, in front of the unread part. */
  method AppendText(path: array<char>, i: nat, k: nat, x: string) returns (w: nat)
    requires k + |x| <= i < path.Length
    modifies path
    ensures w == k + |x| && path[..w] == old(path[..k]) + x
    ensures forall y | i <= y < path.Length :: path[y] == old(path[y])
  {
    Memcpy(path, k, x);
    w := k + |x|;
    assert path[..w] == path[..][..w];
    assert forall y | i <= y < path.Length :: path[y] == path[..][y];
  }

  /** The text that is left behind by a component that ends at offset `i`. */
  ghost function After(abs: bool, parts: seq<string>, src: string, i: nat): (s: string)
    requires i <= |src|
  {
    if i == |src| then Final(abs, parts, false)
    else if i + 1 == |src| then Final(abs, parts, true)
    else Render(abs, parts)
  }

  lemma AfterSlash(abs: bool, parts: seq<string>, src: string, i: nat, text: string)
    requires i <= |src| && parts != []
    requires text == Render(abs, parts[..|parts| - 1]) + parts[|parts| - 1]
    ensures After(abs, parts, src, i) == if i < |src| then text + "/" else text
  {
    RenderSnoc(abs, parts);
    assert text + "" == text;
  }

  /** A named component is copied down. */
  method CopyName(path: array<char>, i: nat, j: nat, k: nat, ghost abs: bool, ghost parts: seq<string>, ghost src: string)
    returns (w: nat)
    requires Holds(path, src, j) && k <= j < i <= |src| && (i < |src| ==> src[i] == '/')
    requires path[..k] == Render(abs, parts)
    modifies path
    ensures w <= i + 1 && (i == |src| ==> w <= i) && Holds(path, src, i)
    ensures path[..w] == After(abs, parts + [src[j..i]], src, i)
    ensures forall x | |src| < x < path.Length :: path[x] == old(path[x])
  {
    hide Render, After, Write;
    assert path[j..i] == src[j..i];
    AfterName(abs, parts, src, j, i);
    MoveDown(path, i, j, k);
    w := AppendSlash(path, i, k + (i - j));
  }

  /** Moves the component at `j` down to the end of the output. */
  method MoveDown(path: array<char>, i: nat, j: nat, k: nat)
    requires k <= j <= i < path.Length
    modifies path
    ensures path[..k + (i - j)] == old(path[..k]) + old(path[j..i])
    ensures forall x | i <= x < path.Length :: path[x] == old(path[x])
  {
    ghost var s := path[..];
    Memmove(path, k, j, i - j);
    assert path[..k + (i - j)] == path[..][..k + (i - j)] == s[..k] + s[j..i];
    assert forall x | i <= x < path.Length :: path[x] == path[..][x] == s[x];
  }

  lemma AfterName(abs: bool, parts: seq<string>, src: string, j: nat, i: nat)
    requires j <= i <= |src|
    ensures After(abs, parts + [src[j..i]], src, i)
         == Render(abs, parts) + src[j..i] + if i < |src| then "/" else ""
  {
    hide Render, After;
    var text := Render(abs, parts) + src[j..i];
    assert (parts + [src[j..i]])[..|parts|] == parts;
    AfterSlash(abs, parts + [src[j..i]], src, i, text);
    assert text + "" == text;
  }

  /** A "." component. */
  method TakeDot(path: array<char>, i: nat, k: nat, ghost abs: bool, ghost parts: seq<string>, ghost src: string)
    returns (w: nat)
    requires Holds(path, src, i) && k < i <= |src| && (i < |src| ==> src[i] == '/')
    requires path[..k] == Render(abs, parts) && AreNames(parts)
    modifies path
    ensures w <= i + 1 && (i == |src| ==> w <= i) && Holds(path, src, i)
    ensures path[..w] == After(abs, parts, src, i)
    ensures forall x | |src| < x < path.Length :: path[x] == old(path[x])
  {
    hide Render, After, AreNames;
    DotText(abs, parts, src, i);
    w := k;
    if k == 0 {
      assert path[..0] == "";
      if path[i] == NUL {
        w := AppendText(path, i, k, ".");
      } else if path[i] == '/' && path[i + 1] == NUL {
        w := AppendText(path, i, k, ".");
        w := AppendSlash(path, i, w);
      }
    } else if k > 1 {
      if path[i] == NUL {
        w := k - 1;
        assert path[..w] == path[..k][..w];
      }
    }
  }

  /** What a component that leaves the output alone makes of it at the end of the path. */
  lemma DotText(abs: bool, parts: seq<string>, src: string, i: nat)
    requires AreNames(parts) && i <= |src|
    ensures var r, t := Render(abs, parts), After(abs, parts, src, i);
            && (r == "" ==> t == if i == |src| then "." else if i + 1 == |src| then "./" else "")
            && (|r| == 1 ==> t == r)
            && (|r| > 1 ==> t == if i == |src| then r[..|r| - 1] else r)
  {
    hide Render;
    RenderSize(abs, parts);
    if parts != [] {
      RenderSnoc(abs, parts);
      AfterSlash(abs, parts, src, i, Render(abs, parts[..|parts| - 1]) + parts[|parts| - 1]);
    }
  }

  /** How long the output is, and what it ends with. */
  lemma RenderSize(abs: bool, parts: seq<string>)
    requires AreNames(parts)
    ensures var s := Render(abs, parts);
            && (parts == [] ==> s == if abs then "/" else "")
            && (parts != [] ==> |s| >= 2)
            && (s != "" ==> s[|s| - 1] == '/')
            && (abs ==> s != "" && s[0] == '/')
  {
    if parts != [] {
      assert IsName(parts[|parts| - 1]);
      RenderSnoc(abs, parts);
    }
  }

  /** "Search the path for the previous slash": the distance from the last slash to the one before. */
  method FindSlash(path: array<char>, k: nat) returns (d: nat)
    requires 1 < k <= path.Length
    ensures 1 <= d <= k && (d < k ==> path[k - d - 1] == '/')
    ensures forall x | k - d <= x < k - 1 :: path[x] != '/'
  {
    d := 1;
    while d < k
      invariant 1 <= d <= k
      invariant forall x | k - d <= x < k - 1 :: path[x] != '/'
    {
      if path[k - d - 1] == '/' {
        return;
      }
      d := d + 1;
    }
  }

  /** What the search finds in a rendered path. */
  lemma FoundSlash(abs: bool, parts: seq<string>, out: string, d: nat)
    requires parts != [] && AreNames(parts) && out == Render(abs, parts) && 1 <= d <= |out|
    requires d < |out| ==> out[|out| - d - 1] == '/'
    requires forall x | |out| - d <= x < |out| - 1 :: out[x] != '/'
    ensures var init, last := parts[..|parts| - 1], parts[|parts| - 1];
            && d == |last| + 1 >= 2 && |Render(abs, init)| == |out| - d
            && out[..|out| - d] == Render(abs, init) && out[|out| - d..|out| - 1] == last
            && (d < |out| <==> abs || |parts| > 1)
            && (StartsWithDots(last) <==> out[|out| - d] == '.' && |out| - d + 1 < |out| && out[|out| - d + 1] == '.')
            && (d == |out| && |out| == 3 && out[0] == '.' && out[1] == '.' <==> d == |out| && last == "..")
  {
    hide Render;
    var init, last := parts[..|parts| - 1], parts[|parts| - 1];
    var r := Render(abs, init);
    RenderSnoc(abs, parts);
    assert IsName(last);
    RenderSize(abs, init);
    assert forall x | |r| <= x < |r| + |last| :: out[x] == last[x - |r|];
    assert out[|r| + |last|] == '/';
    assert |r| > 0 ==> out[|r| - 1] == '/';
    assert d <= |last| + 1;
    assert out[..|r|] == r && out[|r|..|r| + |last|] == last;
  }

  /** A ".." component after a previous one, with a slash before that one. */
  method PopFound(path: array<char>, i: nat, k: nat, d: nat, ghost abs: bool, ghost parts: seq<string>, ghost src: string)
    returns (w: nat)
    requires Holds(path, src, i) && k + 2 <= i <= |src| && (i < |src| ==> src[i] == '/')
    requires path[..k] == Render(abs, parts) && AreNames(parts) && parts != []
    requires 1 <= d < k && path[k - d - 1] == '/' && forall x | k - d <= x < k - 1 :: path[x] != '/'
    modifies path
    ensures w <= i + 1 && (i == |src| ==> w <= i) && Holds(path, src, i)
    ensures path[..w] == After(abs, Take(abs, parts, ".."), src, i)
    ensures forall x | |src| < x < path.Length :: path[x] == old(path[x])
  {
    hide Render, After, Take, AreNames;
    ghost var out := path[..k];
    FoundSlash(abs, parts, out, d);
    if path[k - d] == '.' && path[k - d + 1] == '.' {
      PopKeeps(abs, parts, out, d, src, i);
      w := AppendText(path, i, k, "..");
    } else {
      PopDrops(abs, parts, out, d, src, i);
      w := k - d - 1;
      assert path[..w] == out[..w];
    }
    if w == 0 && path[0] == '/' {
      path[0] := '/';
      w := 1;
    } else {
      w := AppendSlash(path, i, w);
    }
  }

  /** A ".." component behind a name that starts with two dots is kept. */
  lemma PopKeeps(abs: bool, parts: seq<string>, out: string, d: nat, src: string, i: nat)
    requires parts != [] && AreNames(parts) && out == Render(abs, parts) && 1 <= d < |out| && i <= |src|
    requires out[|out| - d - 1] == '/' && forall x | |out| - d <= x < |out| - 1 :: out[x] != '/'
    requires out[|out| - d] == '.' && |out| - d + 1 < |out| && out[|out| - d + 1] == '.'
    ensures After(abs, Take(abs, parts, ".."), src, i) == out + ".." + if i < |src| then "/" else ""
  {
    hide Render, After;
    FoundSlash(abs, parts, out, d);
    assert Take(abs, parts, "..") == parts + [".."];
    assert (parts + [".."])[..|parts|] == parts;
    AfterSlash(abs, parts + [".."], src, i, out + "..");
    assert out + ".." + "" == out + "..";
  }

  /** Otherwise it takes the name and the slash in front of it away. */
  lemma PopDrops(abs: bool, parts: seq<string>, out: string, d: nat, src: string, i: nat)
    requires parts != [] && AreNames(parts) && out == Render(abs, parts) && 1 <= d < |out| && i <= |src|
    requires out[|out| - d - 1] == '/' && forall x | |out| - d <= x < |out| - 1 :: out[x] != '/'
    requires !(out[|out| - d] == '.' && |out| - d + 1 < |out| && out[|out| - d + 1] == '.')
    ensures var w, r := |out| - d - 1, After(abs, Take(abs, parts, ".."), src, i);
            if w == 0 then out[0] == '/' && r == "/"
            else r == out[..w] + if i < |src| then "/" else ""
  {
    hide Render;
    FoundSlash(abs, parts, out, d);
    var init := parts[..|parts| - 1];
    RenderSize(abs, init);
    assert Take(abs, parts, "..") == init;
    if init != [] {
      RenderSnoc(abs, init);
      assert out[..|out| - d][..|out| - d - 1] == out[..|out| - d - 1];
      AfterSlash(abs, init, src, i, out[..|out| - d - 1]);
    }
  }

  /** A ".." component after the only component of a relative path. */
  method PopAlone(path: array<char>, i: nat, k: nat, ghost parts: seq<string>, ghost src: string) returns (w: nat)
    requires Holds(path, src, i) && k + 2 <= i <= |src| && (i < |src| ==> src[i] == '/') && k > 1
    requires path[..k] == Render(false, parts) && AreNames(parts) && parts != []
    requires forall x | 0 <= x < k - 1 :: path[x] != '/'
    modifies path
    ensures w <= i + 1 && (i == |src| ==> w <= i) && Holds(path, src, i)
    ensures path[..w] == After(false, Take(false, parts, ".."), src, i)
    ensures forall x | |src| < x < path.Length :: path[x] == old(path[x])
  {
    hide Render;
    ghost var out := path[..k];
    FoundSlash(false, parts, out, k);
    RenderSize(false, []);
    if k == 3 && path[0] == '.' && path[1] == '.' {
      assert Take(false, parts, "..") == parts + [".."];
      assert (parts + [".."])[..|parts|] == parts;
      AfterSlash(false, parts + [".."], src, i, out + "..");
      w := AppendText(path, i, k, "..");
      w := AppendSlash(path, i, w);
    } else {
      assert Take(false, parts, "..") == [];
      assert path[..0] == "";
      w := 0;
      if path[i] == NUL {
        w := AppendText(path, i, 0, ".");
      } else if path[i] == '/' && path[i + 1] == NUL {
        w := AppendText(path, i, 0, ".");
        w := AppendSlash(path, i, w);
      }
    }
  }

  /** A ".." component at the start of a relative path is kept, at the root it is dropped. */
  lemma PopNothing(abs: bool, parts: seq<string>, src: string, i: nat)
    requires AreNames(parts) && i <= |src|
    ensures var r := After(abs, Take(abs, parts, ".."), src, i);
            && (Render(abs, parts) == "" ==> r == ".." + if i < |src| then "/" else "")
            && (|Render(abs, parts)| == 1 ==> parts == [] && abs && r == "/" == Render(abs, parts))
  {
    hide Render;
    RenderSize(abs, parts);
    RenderSize(false, []);
    if parts == [] && !abs {
      AfterSlash(false, [".."], src, i, "..");
    }
  }

  /** A ".." component. */
  method TakeDotDot(path: array<char>, i: nat, k: nat, ghost abs: bool, ghost parts: seq<string>, ghost src: string)
    returns (w: nat)
    requires Holds(path, src, i) && k + 2 <= i <= |src| && (i < |src| ==> src[i] == '/')
    requires path[..k] == Render(abs, parts) && AreNames(parts)
    modifies path
    ensures w <= i + 1 && (i == |src| ==> w <= i) && Holds(path, src, i)
    ensures path[..w] == After(abs, Take(abs, parts, ".."), src, i)
    ensures forall x | |src| < x < path.Length :: path[x] == old(path[x])
  {
    hide Render, After, Take, AreNames;
    RenderSize(abs, parts);
    PopNothing(abs, parts, src, i);
    w := k;
    if k == 0 {
      assert path[..0] == "";
      w := AppendText(path, i, 0, "..");
      w := AppendSlash(path, i, w);
    } else if k > 1 {
      w := TakeParent(path, i, k, abs, parts, src);
    }
  }

  /** A ".." component behind another component. */
  method TakeParent(path: array<char>, i: nat, k: nat, ghost abs: bool, ghost parts: seq<string>, ghost src: string)
    returns (w: nat)
    requires Holds(path, src, i) && 1 < k && k + 2 <= i <= |src| && (i < |src| ==> src[i] == '/')
    requires path[..k] == Render(abs, parts) && AreNames(parts) && parts != []
    modifies path
    ensures w <= i + 1 && (i == |src| ==> w <= i) && Holds(path, src, i)
    ensures path[..w] == After(abs, Take(abs, parts, ".."), src, i)
    ensures forall x | |src| < x < path.Length :: path[x] == old(path[x])
  {
    hide Render, After, Take, AreNames;
    var d := FindSlash(path, k);
    ghost var out := path[..k];
    assert forall x | 0 <= x < k :: out[x] == path[x];
    FoundSlash(abs, parts, out, d);
    if d < k {
      w := PopFound(path, i, k, d, abs, parts, src);
    } else {
      w := PopAlone(path, i, k, parts, src);
    }
  }

  // ---------------------------------------------------------------- second pass

  /** What the second pass knows at the start `j` of a component. */
  ghost predicate At(abs: bool, parts: seq<string>, src: string, j: nat)
  {
    && j <= |src| && AreNames(parts) && abs == IsAbsolute(src) && NUL !in src
    && (j == 0 ==> parts == []) && (j > 0 ==> src[j - 1] == '/')
    && Walk(abs, Run(abs, [], parts), src[j..]) == Walk(abs, [], src)
    && Tracks(abs, parts, src, src[j..])
  }

  /** What it knows once the whole path was read. */
  ghost predicate Done(abs: bool, parts: seq<string>, src: string)
  {
    && AreNames(parts) && abs == IsAbsolute(src)
    && Run(abs, [], parts) == Walk(abs, [], src)
    && Settled(abs, parts, src)
  }

  lemma AtStart(src: string)
    requires NUL !in src
    ensures At(IsAbsolute(src), [], src, 0)
  {
    assert src[0..] == src;
    TracksStart(IsAbsolute(src), src);
  }

  /** Reading the component that ends at offset `i`. */
  lemma AtNext(abs: bool, parts: seq<string>, src: string, j: nat, i: nat)
    requires At(abs, parts, src, j) && j <= i <= |src|
    requires (i < |src| ==> src[i] == '/') && forall x | j <= x < i :: !IsSlash(src[x])
    ensures var next := Take(abs, parts, src[j..i]);
            if i < |src| then At(abs, next, src, i + 1) else Done(abs, next, src)
  {
    hide Run, Take, Step, Walk, Tracks, Settled;
    var t, at := src[j..i], Run(abs, [], parts);
    assert src[j..] == t + src[i..];
    assert forall c | c in t :: c in src;
    assert i < |src| ==> src[i..][1..] == src[i + 1..];
    WalkName(abs, at, t, src[i..]);
    TakeMeaning(abs, parts, t);
    TracksNext(abs, parts, src, t, src[i..]);
  }

  lemma TakeStart(abs: bool, parts: seq<string>, t: string)
    ensures t == "" ==> Take(abs, parts, t) == parts
  {
  }

  lemma AtEnd(abs: bool, parts: seq<string>, src: string)
    requires At(abs, parts, src, |src|)
    ensures Done(abs, parts, src)
  {
    hide Run, Walk;
    assert src[|src|..] == "";
    WalkEmpty(abs, Run(abs, [], parts));
    TracksEnd(abs, parts, src);
  }

  /** One component of the second pass, whatever its kind. */
  method TakeComponent(path: array<char>, i: nat, j: nat, k: nat, ghost abs: bool, ghost parts: seq<string>, ghost src: string)
    returns (w: nat)
    requires Holds(path, src, j) && k <= j < i <= |src| && (i < |src| ==> src[i] == '/')
    requires path[..k] == Render(abs, parts) && AreNames(parts)
    modifies path
    ensures w <= i + 1 && (i == |src| ==> w <= i) && Holds(path, src, i)
    ensures path[..w] == After(abs, Take(abs, parts, src[j..i]), src, i)
    ensures forall x | |src| < x < path.Length :: path[x] == old(path[x])
  {
    hide Render, After;
    ghost var t := src[j..i];
    if i - j == 1 && path[j] == '.' {
      assert t == ".";
      w := TakeDot(path, i, k, abs, parts, src);
    } else if i - j == 2 && path[j] == '.' && path[j + 1] == '.' {
      assert t == "..";
      w := TakeDotDot(path, i, k, abs, parts, src);
    } else {
      assert t != "" && t[0] == path[j] && (i - j == 2 ==> t[1] == path[j + 1]);
      assert t != "." && t != "..";
      w := CopyName(path, i, j, k, abs, parts, src);
    }
  }

  /** The text under construction in front of offset `j`. */
  ghost predicate Written(path: array<char>, abs: bool, parts: seq<string>, src: string, j: nat, k: nat)
    reads path
  {
    && k <= j && Holds(path, src, j)
    && path[..k] == if j == 0 then "" else Render(abs, parts)
  }

  /** The second pass: resolves "." and ".." components. */
  method ResolveInPlace(path: array<char>, ghost src: string) returns (ghost k: nat, ghost parts: seq<string>)
    requires Holds(path, src, 0) && IsSqueezed(src)
    modifies path
    ensures k <= |src| && path[k] == NUL && (src == "" ==> k == 0)
    ensures Done(IsAbsolute(src), parts, src)
    ensures src != "" ==> path[..k] == Final(IsAbsolute(src), parts, src[|src| - 1] == '/')
    ensures forall x | |src| < x < path.Length :: path[x] == old(path[x])
  {
    hide Render, Final, Done, Take, Step, AreNames, Run, Walk, Tracks;
    ghost var abs := IsAbsolute(src);
    var i: nat, j: nat, w: nat, more := 0, 0, 0, true;
    parts := [];
    AtStart(src);
    RenderNothing();
    while more
      invariant if more then
                  && j <= i <= |src| && (i == j ==> i == 0) && (forall x | j <= x < i :: !IsSlash(src[x]))
                  && At(abs, parts, src, j) && Written(path, abs, parts, src, j, w)
                else
                  && Done(abs, parts, src) && w <= |src| && (src == "" ==> w == 0)
                  && (src != "" ==> path[..w] == Final(abs, parts, src[|src| - 1] == '/'))
      invariant |src| < path.Length
      invariant forall x | |src| < x < path.Length :: path[x] == old(path[x])
      decreases more, |src| + 1 - i
    {
      if path[i] == '/' || path[i] == NUL {
        w, parts := Advance(path, i, j, w, abs, parts, src);
        i := SkipOneRun(path, i, src);
        j := i;
      }
      more := path[i] != NUL;
      i := i + 1;
    }
    path[w] := NUL;
    k := w;
  }

  /** `while(path[i] == '/') i++`. */
  method SkipOneRun(path: array<char>, first: nat, ghost src: string) returns (i: nat)
    requires Holds(path, src, first) && IsSqueezed(src)
    ensures i == if first < |src| && src[first] == '/' then first + 1 else first
  {
    i := first;
    while path[i] == '/'
      invariant first <= i <= |src| && (i > first ==> i == first + 1 && src[first] == '/')
      decreases |src| - i
    {
      i := i + 1;
    }
  }

  lemma RenderNothing()
    ensures Render(false, []) == "" && Render(true, []) == "/"
  {
  }

  /** Takes in the component that ends at offset `i`, which may be the empty one before a root slash. */
  method Advance(path: array<char>, i: nat, j: nat, k: nat, ghost abs: bool, ghost parts: seq<string>, ghost src: string)
    returns (w: nat, ghost next: seq<string>)
    requires At(abs, parts, src, j) && Written(path, abs, parts, src, j, k) && IsSqueezed(src)
    requires j <= i <= |src| && (i == j ==> i == 0) && (forall x | j <= x < i :: !IsSlash(src[x]))
    requires i < |src| ==> src[i] == '/'
    modifies path
    ensures Holds(path, src, i)
    ensures i + 1 < |src| ==> At(abs, next, src, i + 1) && Written(path, abs, next, src, i + 1, w)
    ensures i + 1 >= |src| ==>
              && Done(abs, next, src) && w <= |src| && (src == "" ==> w == 0)
              && (src != "" ==> path[..w] == Final(abs, next, src[|src| - 1] == '/'))
    ensures forall x | |src| < x < path.Length :: path[x] == old(path[x])
  {
    hide Render, Final, Done, Take, Step, Walk, Run, Tracks;
    next := Take(abs, parts, src[j..i]);
    AtNext(abs, parts, src, j, i);
    RenderNothing();
    if i == j {
      TakeStart(abs, parts, src[j..i]);
      RootText();
      w := AppendSlash(path, i, k);
    } else {
      w := TakeComponent(path, i, j, k, abs, parts, src);
    }
    if i + 1 == |src| { AtEnd(abs, next, src); }
  }

  lemma RootText()
    ensures Final(true, [], true) == "/"
  {
  }

  // ---------------------------------------------------------------- the whole function

  /** The canonical text of a location. */
  function Canonical(s: string): (r: string)
  {
    if s == "" then "" else Final(IsAbsolute(s), Locate(s).at, IsSlash(s[|s| - 1]))
  }

  lemma {:induction false} SqueezeLast(s: string)
    requires s != ""
    ensures Squeeze(s) != "" && (Squeeze(s)[|Squeeze(s)| - 1] == '/' <==> IsSlash(s[|s| - 1]))
    decreases |s|
  {
    SqueezeIsSqueezed(s);
    if IsSlash(s[0]) {
      var t := SkipSlashes(s[1..]);
      SkipLast(s[1..]);
      if t != "" {
        SqueezeLast(t);
      } else {
        SqueezeIsSqueezed(t);
      }
    } else if |s| > 1 {
      SqueezeLast(s[1..]);
    } else {
      SqueezeIsSqueezed(s[1..]);
    }
  }

  lemma {:induction false} SkipLast(s: string)
    ensures SkipSlashes(s) == "" ==> s == "" || IsSlash(s[|s| - 1])
    ensures SkipSlashes(s) != "" ==> s != "" && SkipSlashes(s)[|SkipSlashes(s)| - 1] == s[|s| - 1]
    decreases |s|
  {
    if s != "" && IsSlash(s[0]) {
      SkipLast(s[1..]);
    }
  }

  lemma {:induction false} SqueezeNoNul(s: string)
    requires NUL !in s
    ensures NUL !in Squeeze(s)
    decreases |s|
  {
    if s != "" {
      if IsSlash(s[0]) {
        SkipSuffix(s[1..]);
        SqueezeNoNul(SkipSlashes(s[1..]));
      } else {
        SqueezeNoNul(s[1..]);
      }
    }
  }

  lemma {:induction false} SkipSuffix(s: string)
    ensures forall c | c in SkipSlashes(s) :: c in s
    decreases |s|
  {
    if s != "" && IsSlash(s[0]) {
      SkipSuffix(s[1..]);
    }
  }

  /** The result, from what both passes promise. */
  lemma ResultMeaning(s: string, src: string, r: string, parts: seq<string>)
    requires src == Squeeze(s) && Done(IsAbsolute(src), parts, src)
    requires r == if src == "" then "" else Final(IsAbsolute(src), parts, src[|src| - 1] == '/')
    ensures Locate(r) == Locate(s) && NUL !in r && (r == Canonical(s) <==> Reduces(IsAbsolute(s), [], s))
  {
    hide Walk, Run, Final, Squeeze, Reduces, Settled;
    SqueezeIsSqueezed(s);
    LocateSqueeze(s);
    LocateFinal(IsAbsolute(src), parts, src != "" && src[|src| - 1] == '/');
    FinalNoNul(IsAbsolute(src), parts, src != "" && src[|src| - 1] == '/');
    if s != "" { SqueezeLast(s); }
    ReducesSqueeze(IsAbsolute(s), [], s);
    if s == "" {
      ReducesNothing(false, []);
    } else {
      SettledText(IsAbsolute(src), parts, src, src[|src| - 1] == '/');
    }
  }

  /** `pathCanonicalize`. */
  method Canonicalize(path: array<char>, ghost n: nat)
    requires n < path.Length && path[n] == NUL && NUL !in path[..n]
    modifies path
    ensures var s, r := CString(old(path[..])), CString(path[..]);
            && NUL in path[..] && |r| <= |s|
            && Locate(r) == Locate(s)
            && (r == Canonical(s) <==> Reduces(IsAbsolute(s), [], s))
    ensures forall x | n < x < path.Length :: path[x] == old(path[x])
  {
    hide Squeeze, Final, Done, Locate, Canonical, Reduces, CString, IsSqueezed;
    ghost var s := path[..n];
    CStringAt(path[..], n);
    ghost var k := SqueezeInPlace(path, s);
    ghost var src := path[..k];
    SqueezeNoNul(s);
    SqueezeIsSqueezed(s);
    ghost var w, parts := ResolveInPlace(path, src);
    ghost var r := path[..w];
    ResultMeaning(s, src, r, parts);
    assert path[..][..w] == r && path[..][w] == NUL;
    CStringAt(path[..], w);
  }
}
