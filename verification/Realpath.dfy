/** makeRelative, from rom/bin/realpath.ts. */
module Realpath {
  // The relative path it prints leads from the base back to the path, and no other relative path
  // that does has fewer components.

  import opened Text
  import opened Paths

  /** How many leading parts two part lists share. */
  function Common(a: seq<string>, b: seq<string>): (n: nat)
    ensures n <= |a| && n <= |b| && a[..n] == b[..n]
    ensures n < |a| && n < |b| ==> a[n] != b[n]
  {
    if a == [] || b == [] || a[0] != b[0] then 0 else 1 + Common(a[1..], b[1..])
  }

  /** The parts makeRelative joins. */
  function RelativeParts(path: string, base: string): seq<string> {
    var p, b := Parts(path), Parts(base);
    Dots(|b| - Common(p, b)) + p[Common(p, b)..]
  }

  /** makeRelative */
  method MakeRelative(path: string, base: string) returns (relative: string)
    ensures relative == Unparse(RelativeParts(path, base), false)
    ensures IsAbsoluteNormal(path) && IsAbsoluteNormal(base) ==>
      && Resolve(base, relative) == path
      && forall r :: !IsAbsolute(r) && Resolve(base, r) == path ==> Components(relative) <= Components(r)
  {
    var pathParts, baseParts := Parts(path), Parts(base);
    var common := 0;
    while common < |pathParts| && common < |baseParts|
      invariant 0 <= common <= |pathParts| && common <= |baseParts|
      invariant pathParts[..common] == baseParts[..common]
    {
      if pathParts[common] != baseParts[common] {
        break;
      }
      common := common + 1;
    }
    CommonIsUnique(pathParts, baseParts, common);
    var ups := |baseParts| - common;
    var parts: seq<string> := [];
    for i := 0 to ups
      invariant parts == seq(i, k => "..")
    {
      parts := parts + [".."];
    }
    parts := parts + pathParts[common..];
    var joined := Join(parts, '/');
    relative := if joined == "" then "." else joined;
    if IsAbsoluteNormal(path) && IsAbsoluteNormal(base) {
      RelativeLeadsBack(path, base);
      forall r | !IsAbsolute(r) && Resolve(base, r) == path ensures Components(relative) <= Components(r) {
        RelativeIsShortest(path, base, r);
      }
    }
  }

  lemma {:induction false} CommonIsUnique(a: seq<string>, b: seq<string>, n: nat)
    requires n <= |a| && n <= |b| && a[..n] == b[..n]
    requires n < |a| && n < |b| ==> a[n] != b[n]
    ensures n == Common(a, b)
  {
    if n == 0 {
    } else {
      assert a[0] == a[..n][0] == b[..n][0] == b[0];
      assert a[..n][1..] == a[1..][..n - 1] && b[..n][1..] == b[1..][..n - 1];
      CommonIsUnique(a[1..], b[1..], n - 1);
    }
  }

  // ---------------------------------------------------------------------------
  // It leads back

  ghost predicate IsAbsoluteNormal(path: string) {
    IsAbsolute(path) && IsNormal(path)
  }

  /** The number of components of a path, `.` counting as none. */
  function Components(path: string): nat {
    Moves(Parts(path))
  }

  function Moves(parts: seq<string>): nat {
    if parts == [] then 0
    else Moves(parts[..|parts| - 1]) + (if parts[|parts| - 1] == "." then 0 else 1)
  }

  lemma {:induction false} NormalParts(path: string)
    requires IsAbsoluteNormal(path)
    ensures IsDir(Parts(path)) && path == Unparse(Parts(path), true)
  {
    var stack :| IsStack(stack, true) && path == Unparse(stack, true);
    PartsOfUnparse(stack, true);
  }

  /** A normalised absolute path leads to the directory its parts name. */
  lemma {:induction false} NormalPath(path: string, dir: Dir)
    requires IsAbsoluteNormal(path)
    ensures IsDir(Parts(path)) && Meaning(path, dir) == Parts(path)
    ensures path == Unparse(Parts(path), true) == Normalize(path)
  {
    NormalParts(path);
    NormalIsNormal(path);
    NormalParts(Normalize(path));
    NormalizeKeepsMeaning(path);
    WalkNames([], Parts(path));
    WalkNames([], Parts(Normalize(path)));
    assert IsDir([]) && Meaning(Normalize(path), []) == Meaning(path, []);
    assert [] + Parts(path) == Parts(path) && [] + Parts(Normalize(path)) == Parts(Normalize(path));
  }

  /** From one directory to another over what they share. */
  lemma {:induction false} WalkAcross(b: Dir, p: Dir, n: nat)
    requires n <= |b| && n <= |p| && b[..n] == p[..n]
    requires forall k :: 0 <= k < |p| ==> IsName(p[k])
    ensures Walk(b, Dots(|b| - n) + p[n..]) == p
  {
    var tail := p[n..];
    forall k | 0 <= k < |tail| ensures IsName(tail[k]) {
      assert tail[k] == p[n + k];
    }
    WalkUps(b, |b| - n);
    WalkNames(b[..n], tail);
    assert b[..n] + tail == p;
    WalkConcat(b, Dots(|b| - n), tail);
  }

  lemma {:induction false} RelativePartsFacts(path: string, base: string)
    requires IsAbsoluteNormal(path) && IsAbsoluteNormal(base)
    ensures Walk(Parts(base), RelativeParts(path, base)) == Parts(path)
  {
    NormalParts(path);
    WalkAcross(Parts(base), Parts(path), Common(Parts(path), Parts(base)));
  }

  lemma {:induction false} RelativePartsShape(path: string, base: string)
    requires IsAbsoluteNormal(path) && IsAbsoluteNormal(base)
    ensures IsStack(RelativeParts(path, base), false)
  {
    NormalParts(path);
  }

  /** Resolving the relative path against the base gives the path. */
  lemma {:induction false} RelativeLeadsBack(path: string, base: string)
    requires IsAbsoluteNormal(path) && IsAbsoluteNormal(base)
    ensures Resolve(base, Unparse(RelativeParts(path, base), false)) == path
  {
    var parts := RelativeParts(path, base);
    var relative := Unparse(parts, false);
    var result := Resolve(base, relative);
    RelativePartsFacts(path, base);
    RelativePartsShape(path, base);
    PartsOfUnparse(parts, false);
    WalkSnoc(Parts(base), [], ".");
    forall dir | IsDir(dir) ensures Meaning(result, dir) == Meaning(path, dir) {
      ResolveMeaning(base, relative, dir);
      NormalPath(path, dir);
      NormalPath(base, dir);
    }
    ResolveMeaning(base, relative, []);
    assert SameMeaning(result, path);
    NormalizeIsCanonical(result, path);
    ResolveIsNormal(base, relative);
    NormalPath(path, []);
  }

  // ---------------------------------------------------------------------------
  // Nothing shorter does

  /** The steps between two directories in the tree. */
  function Distance(s: Dir, t: Dir): nat {
    |s| + |t| - 2 * Common(s, t)
  }

  /** One component changes the distance to a directory by at most one, and `.` not at all. */
  lemma {:induction false} OneStep(s: Dir, t: Dir, part: string)
    ensures Distance(s, t) <= Distance(Visit(s, part), t) + (if part == "." then 0 else 1)
  {
    var s' := Visit(s, part);
    if part == "." {
    } else if part == ".." {
      if s != [] {
        CommonOfLonger(s', s[|s| - 1], t);
        assert s == s' + [s[|s| - 1]];
      }
    } else {
      CommonOfLonger(s, part, t);
    }
  }

  lemma {:induction false} CommonOfLonger(s: Dir, part: string, t: Dir)
    ensures Common(s, t) <= Common(s + [part], t) <= Common(s, t) + 1
  {
    if s == [] {
      assert s + [part] == [part];
    } else if t != [] && s[0] == t[0] {
      assert (s + [part])[1..] == s[1..] + [part];
      CommonOfLonger(s[1..], part, t[1..]);
    }
  }

  lemma {:induction false} WalkCovers(s: Dir, parts: seq<string>, t: Dir)
    ensures Distance(s, t) <= Distance(Walk(s, parts), t) + Moves(parts)
  {
    if parts == [] {
    } else {
      WalkCovers(s, parts[..|parts| - 1], t);
      OneStep(Walk(s, parts[..|parts| - 1]), t, parts[|parts| - 1]);
    }
  }

  lemma {:induction false} MovesOfStack(parts: seq<string>)
    requires IsStack(parts, false)
    ensures Moves(parts) == |parts|
  {
    if parts == [] {
    } else {
      MovesOfStack(parts[..|parts| - 1]);
    }
  }

  /** Every relative path from the base to the path has at least as many components. */
  lemma {:induction false} RelativeIsShortest(path: string, base: string, r: string)
    requires IsAbsoluteNormal(path) && IsAbsoluteNormal(base)
    requires !IsAbsolute(r) && Resolve(base, r) == path
    ensures Components(Unparse(RelativeParts(path, base), false)) <= Components(r)
  {
    var p, b, parts := Parts(path), Parts(base), RelativeParts(path, base);
    ResolveMeaning(base, r, []);
    NormalPath(path, []);
    NormalPath(base, []);
    WalkCovers(b, Parts(r), p);
    CommonIsUnique(p, p, |p|);
    CommonIsUnique(b, p, Common(p, b));
    RelativePartsFacts(path, base);
    RelativePartsShape(path, base);
    PartsOfUnparse(parts, false);
    MovesOfStack(parts);
    assert Moves(["."]) == Moves([]);
  }
}
