/** The path algebra of rom/lib/path.ts. */
module Paths {
  // A stack machine over path parts that clamps at the root.  Its results are proved to be
  // canonical: two paths have the same normal form exactly when they lead from every directory
  // to the same place.

  import opened Text

  /** An absolute directory, as the names from the root down. */
  type Dir = seq<string>

  // ---------------------------------------------------------------------------
  // The functions of the library

  predicate IsAbsolute(path: string) {
    path != "" && path[0] == '/'
  }

  predicate EndsWithSlash(path: string) {
    path != "" && path[|path| - 1] == '/'
  }

  /** path.split('/').filter(Boolean) */
  function Parts(path: string): seq<string> {
    NonEmpty(Split(path, '/'))
  }

  lemma {:induction false} PartsHoldNoSlash(path: string)
    ensures forall k :: 0 <= k < |Parts(path)| ==> Parts(path)[k] != "" && '/' !in Parts(path)[k]
  {
    PiecesHoldNone(path, '/');
    NonEmptyParts(Split(path, '/'));
  }

  /** What one part does to the stack. */
  function Step(stack: seq<string>, part: string, absolute: bool): seq<string> {
    if part == "." then stack
    else if part == ".." then
      if stack != [] && stack[|stack| - 1] != ".." then stack[..|stack| - 1]
      else if !absolute then stack + [".."]
      else stack
    else stack + [part]
  }

  function Reduce(stack: seq<string>, parts: seq<string>, absolute: bool): seq<string> {
    if parts == [] then stack
    else Step(Reduce(stack, parts[..|parts| - 1], absolute), parts[|parts| - 1], absolute)
  }

  function Normalize(path: string): string {
    if path == "" then "."
    else Unparse(Reduce([], Parts(path), IsAbsolute(path)), IsAbsolute(path))
  }

  function Unparse(stack: seq<string>, absolute: bool): string {
    var joined := Join(stack, '/');
    if absolute then "/" + joined else if joined == "" then "." else joined
  }

  /** normalize: pushes and pops while it walks over the parts. */
  method NormalizeLoop(path: string) returns (normalized: string)
    ensures normalized == Normalize(path)
    ensures IsNormal(normalized) && IsAbsolute(normalized) == IsAbsolute(path)
    ensures forall dir :: IsDir(dir) ==> Meaning(normalized, dir) == Meaning(path, dir)
  {
    NormalizeIsSound(path);
    if path == "" {
      return ".";
    }
    var isAbsolute := IsAbsolute(path);
    var parts := Parts(path);
    var result := [];
    for k := 0 to |parts|
      invariant result == Reduce([], parts[..k], isAbsolute)
    {
      var part := parts[k];
      ReduceStep([], parts, k, isAbsolute);
      ghost var next := Step(result, part, isAbsolute);
      if part == "." {
        assert next == result;
        continue;
      }
      if part == ".." {
        if |result| > 0 && result[|result| - 1] != ".." {
          result := result[..|result| - 1];
        } else if !isAbsolute {
          result := result + [".."];
        }
      } else {
        result := result + [part];
      }
      assert next == result;
    }
    assert parts[..|parts|] == parts;
    var joined := Join(result, '/');
    return if isAbsolute then "/" + joined else if joined == "" then "." else joined;
  }

  lemma ReduceStep(stack: seq<string>, parts: seq<string>, k: nat, absolute: bool)
    requires k < |parts|
    ensures Reduce(stack, parts[..k + 1], absolute) == Step(Reduce(stack, parts[..k], absolute), parts[k], absolute)
  {
    assert parts[..k + 1][..k] == parts[..k];
  }

  function Resolve(base: string, relative: string): string {
    if IsAbsolute(relative) then Normalize(relative)
    else Normalize(if EndsWithSlash(base) then base + relative else base + "/" + relative)
  }

  /** join(...paths) */
  function JoinPaths(paths: seq<string>): string {
    Normalize(Join(NonEmpty(paths), '/'))
  }

  /** The path without one final slash, as both dirname and basename take it. */
  function Trimmed(path: string): string {
    if EndsWithSlash(path) then path[..|path| - 1] else path
  }

  function Dirname(path: string): string {
    if path == "" || path == "/" then "/"
    else
      var lastSlash := LastIndexOf(Trimmed(path), '/');
      if lastSlash == -1 then "."
      else if lastSlash == 0 then "/"
      else Trimmed(path)[..lastSlash]
  }

  function Basename(path: string): string {
    if path == "" || path == "/" then ""
    else
      var lastSlash := LastIndexOf(Trimmed(path), '/');
      if lastSlash == -1 then Trimmed(path) else Trimmed(path)[lastSlash + 1..]
  }

  // ---------------------------------------------------------------------------
  // What a path means, without the stack machine

  predicate IsName(part: string) {
    part != "" && part != "." && part != ".." && '/' !in part
  }

  ghost predicate IsDir(dir: Dir) {
    forall k :: 0 <= k < |dir| ==> IsName(dir[k])
  }

  /** The directory one component leads to: the parent of the root is the root. */
  function Visit(dir: Dir, part: string): Dir {
    if part == "." then dir
    else if part == ".." then (if dir == [] then [] else dir[..|dir| - 1])
    else dir + [part]
  }

  function Walk(dir: Dir, parts: seq<string>): Dir {
    if parts == [] then dir else Visit(Walk(dir, parts[..|parts| - 1]), parts[|parts| - 1])
  }

  /** Where a path leads from a directory. */
  function Meaning(path: string, dir: Dir): Dir {
    Walk(if IsAbsolute(path) then [] else dir, Parts(path))
  }

  /** A stack in normal form: for a relative path some leading `..`, then names only. */
  ghost predicate IsStack(stack: seq<string>, absolute: bool) {
    && (forall k :: 0 <= k < |stack| ==> IsName(stack[k]) || (stack[k] == ".." && !absolute))
    && (forall j, k :: 0 <= j < k < |stack| && stack[k] == ".." ==> stack[j] == "..")
  }

  /** A normalised path: the unparsing of a stack in normal form.  An absolute one holds no
      `.`, no `..` and no empty part. */
  ghost predicate IsNormal(path: string) {
    exists stack :: IsStack(stack, IsAbsolute(path)) && path == Unparse(stack, IsAbsolute(path))
  }

  // ---------------------------------------------------------------------------
  // Parts of composed paths

  lemma {:induction false} PartsOfSlashed(a: string, b: string)
    ensures Parts(a + "/" + b) == Parts(a) + Parts(b)
  {
    SplitConcat(a, b, '/');
    NonEmptyConcat(Split(a, '/'), Split(b, '/'));
  }

  lemma {:induction false} PartsOfTrailing(a: string)
    requires EndsWithSlash(a)
    ensures Parts(a) == Parts(a[..|a| - 1])
  {
    assert a == a[..|a| - 1] + "/" + "";
    PartsOfSlashed(a[..|a| - 1], "");
  }

  lemma {:induction false} PartsOfLeading(a: string)
    ensures Parts("/" + a) == Parts(a)
  {
    assert "/" + a == "" + "/" + a;
    PartsOfSlashed("", a);
  }

  lemma {:induction false} PartsOfRoot()
    ensures Parts("") == [] && Parts("/") == [] && Normalize("/") == "/"
  {
    assert Parts("") == [];
    PartsOfLeading("");
    assert "/" + "" == "/";
  }

  lemma {:induction false} PartsOfJoin(parts: seq<string>)
    requires forall k :: 0 <= k < |parts| ==> parts[k] != "" && '/' !in parts[k]
    ensures Parts(Join(parts, '/')) == parts
  {
    if parts != [] {
      SplitOfJoin(parts, '/');
      NonEmptyIdentity(parts);
    }
  }

  lemma {:induction false} PartsOfUnparse(stack: seq<string>, absolute: bool)
    requires IsStack(stack, absolute)
    ensures IsAbsolute(Unparse(stack, absolute)) == absolute
    ensures Unparse(stack, absolute) != ""
    ensures Parts(Unparse(stack, absolute)) == if stack == [] && !absolute then ["."] else stack
  {
    PartsOfJoin(stack);
    if absolute {
      PartsOfLeading(Join(stack, '/'));
    } else if stack == [] {
      SplitPlain(".", '/');
      assert Parts(".") == ["."];
    } else {
      assert Join(stack, '/')[0] == stack[0][0] != '/';
    }
  }

  // ---------------------------------------------------------------------------
  // The machine keeps the meaning

  lemma {:induction false} WalkConcat(dir: Dir, a: seq<string>, b: seq<string>)
    ensures Walk(dir, a + b) == Walk(Walk(dir, a), b)
    decreases |b|
  {
    if b == [] {
      assert a + b == a;
    } else {
      assert (a + b)[..|a + b| - 1] == a + b[..|b| - 1];
      WalkConcat(dir, a, b[..|b| - 1]);
    }
  }

  lemma {:induction false} WalkSnoc(dir: Dir, a: seq<string>, part: string)
    ensures Walk(dir, a + [part]) == Visit(Walk(dir, a), part)
  {
    assert (a + [part])[..|a|] == a;
  }

  lemma {:induction false} WalkIsDir(dir: Dir, parts: seq<string>)
    requires IsDir(dir) && forall k :: 0 <= k < |parts| ==> parts[k] != "" && '/' !in parts[k]
    ensures IsDir(Walk(dir, parts))
  {
    if parts == [] {
    } else {
      WalkIsDir(dir, parts[..|parts| - 1]);
    }
  }

  lemma {:induction false} ReduceIsStack(parts: seq<string>, absolute: bool)
    requires forall k :: 0 <= k < |parts| ==> parts[k] != "" && '/' !in parts[k]
    ensures IsStack(Reduce([], parts, absolute), absolute)
  {
    if parts == [] {
    } else {
      var init := parts[..|parts| - 1];
      ReduceIsStack(init, absolute);
      StepIsStack(Reduce([], init, absolute), parts[|parts| - 1], absolute);
    }
  }

  lemma {:induction false} ReduceKeepsMeaning(parts: seq<string>, absolute: bool, dir: Dir)
    requires forall k :: 0 <= k < |parts| ==> parts[k] != "" && '/' !in parts[k]
    requires absolute ==> dir == []
    ensures Walk(dir, Reduce([], parts, absolute)) == Walk(dir, parts)
  {
    if parts == [] {
    } else {
      var init := parts[..|parts| - 1];
      ReduceIsStack(init, absolute);
      ReduceKeepsMeaning(init, absolute, dir);
      StepKeepsMeaning(Reduce([], init, absolute), parts[|parts| - 1], absolute, dir);
    }
  }

  lemma {:induction false} StepIsStack(stack: seq<string>, part: string, absolute: bool)
    requires IsStack(stack, absolute) && part != "" && '/' !in part
    ensures IsStack(Step(stack, part, absolute), absolute)
  {
  }

  lemma {:induction false} StepKeepsMeaning(stack: seq<string>, part: string, absolute: bool, dir: Dir)
    requires IsStack(stack, absolute) && (absolute ==> dir == [])
    ensures Walk(dir, Step(stack, part, absolute)) == Visit(Walk(dir, stack), part)
  {
    if part == ".." && stack != [] && stack[|stack| - 1] != ".." {
      var init := stack[..|stack| - 1];
      assert stack == init + [stack[|stack| - 1]];
    } else if part == "." || (part == ".." && absolute) {
    } else {
      WalkSnoc(dir, stack, part);
    }
  }

  /** The normal form is one, and is as absolute as the path. */
  lemma {:induction false} NormalIsNormal(path: string)
    ensures IsNormal(Normalize(path)) && IsAbsolute(Normalize(path)) == IsAbsolute(path)
  {
    var absolute := IsAbsolute(path);
    PartsHoldNoSlash(path);
    ReduceIsStack(Parts(path), absolute);
    ReduceKeepsMeaning(Parts(path), absolute, []);
    var stack := Reduce([], Parts(path), absolute);
    PartsOfUnparse(stack, absolute);
    assert path == "" ==> Parts(path) == [] && Normalize(path) == Unparse(stack, absolute);
  }

  /** Normalising changes no path's meaning, from any directory. */
  lemma {:induction false} NormalizeKeepsMeaning(path: string)
    ensures forall dir :: IsDir(dir) ==> Meaning(Normalize(path), dir) == Meaning(path, dir)
  {
    var absolute := IsAbsolute(path);
    PartsHoldNoSlash(path);
    forall dir | IsDir(dir) ensures Meaning(Normalize(path), dir) == Meaning(path, dir) {
      var from := if absolute then [] else dir;
      ReduceIsStack(Parts(path), absolute);
      ReduceKeepsMeaning(Parts(path), absolute, from);
      var stack := Reduce([], Parts(path), absolute);
      PartsOfUnparse(stack, absolute);
      assert path == "" ==> Parts(path) == [] && Normalize(path) == Unparse(stack, absolute);
      assert Walk(from, ["."]) == Visit(Walk(from, []), ".");
    }
  }

  lemma {:induction false} NormalizeIsSound(path: string)
    ensures IsNormal(Normalize(path)) && IsAbsolute(Normalize(path)) == IsAbsolute(path)
    ensures forall dir :: IsDir(dir) ==> Meaning(Normalize(path), dir) == Meaning(path, dir)
  {
    NormalIsNormal(path);
    NormalizeKeepsMeaning(path);
  }

  // ---------------------------------------------------------------------------
  // Normal forms are canonical

  /** How many `..` a stack starts with. */
  function Ups(stack: seq<string>): (k: nat)
    ensures k <= |stack|
    ensures forall i :: 0 <= i < k ==> stack[i] == ".."
    ensures k < |stack| ==> stack[k] != ".."
  {
    if stack == [] || stack[0] != ".." then 0 else 1 + Ups(stack[1..])
  }

  lemma {:induction false} WalkNames(dir: Dir, names: seq<string>)
    requires forall k :: 0 <= k < |names| ==> IsName(names[k])
    ensures Walk(dir, names) == dir + names
  {
    if names == [] {
    } else {
      WalkNames(dir, names[..|names| - 1]);
    }
  }

  /** `..` n times. */
  function Dots(n: nat): (r: seq<string>)
    ensures |r| == n && forall k :: 0 <= k < n ==> r[k] == ".."
  {
    seq(n, _ => "..")
  }

  lemma {:induction false} WalkUps(dir: Dir, n: nat)
    requires n <= |dir|
    ensures Walk(dir, Dots(n)) == dir[..|dir| - n]
  {
    if n == 0 {
    } else {
      WalkUps(dir, n - 1);
      assert Dots(n) == Dots(n - 1) + [".."];
      WalkSnoc(dir, Dots(n - 1), "..");
    }
  }

  /** A stack takes its leading `..` off a deep enough directory and adds its names. */
  lemma {:induction false} WalkStack(dir: Dir, stack: seq<string>, absolute: bool)
    requires IsStack(stack, absolute) && Ups(stack) <= |dir|
    ensures Walk(dir, stack) == dir[..|dir| - Ups(stack)] + stack[Ups(stack)..]
  {
    NamesAfterUps(stack, absolute);
    WalkUpsAndNames(dir, Ups(stack), stack[Ups(stack)..]);
  }

  lemma {:induction false} WalkUpsAndNames(dir: Dir, k: nat, names: seq<string>)
    requires k <= |dir| && forall i :: 0 <= i < |names| ==> IsName(names[i])
    ensures Walk(dir, Dots(k) + names) == dir[..|dir| - k] + names
  {
    WalkConcat(dir, Dots(k), names);
    WalkUps(dir, k);
    WalkNames(dir[..|dir| - k], names);
  }

  /** A stack is its leading `..` and then names. */
  lemma {:induction false} NamesAfterUps(stack: seq<string>, absolute: bool)
    requires IsStack(stack, absolute)
    ensures stack == Dots(Ups(stack)) + stack[Ups(stack)..]
    ensures forall i :: 0 <= i < |stack| - Ups(stack) ==> IsName(stack[Ups(stack)..][i])
  {
  }

  /** A name that none of the given parts has. */
  lemma {:induction false} FreshName(parts: seq<string>) returns (name: string)
    ensures IsName(name) && |name| > 2 && name !in parts
    ensures forall k :: 0 <= k < |parts| ==> |parts[k]| < |name|
    ensures forall k :: 0 <= k < |name| ==> name[k] == 'a'
  {
    if parts == [] {
      name := "aaa";
    } else {
      name := FreshName(parts[1..]);
      name := name + seq(|parts[0]|, i => 'a');
    }
  }

  /** Two stacks in normal form that lead to the same place from the root, or, when
      relative, from one directory deep enough to tell them apart, are the same stack. */
  lemma {:induction false} StackIsCanonical(s: seq<string>, t: seq<string>, name: string, dir: Dir, absolute: bool)
    requires IsStack(s, absolute) && IsStack(t, absolute)
    requires name !in s && name !in t
    requires dir == seq(Ups(s) + Ups(t), i => name)
    requires Walk(dir, s) == Walk(dir, t)
    ensures s == t
  {
    var j, k := Ups(s), Ups(t);
    WalkStack(dir, s, absolute);
    WalkStack(dir, t, absolute);
    SameCut(dir, j, k, s, t, name);
    SameHead(s, t, j);
  }

  lemma {:induction false} SameHead(s: seq<string>, t: seq<string>, j: nat)
    requires j <= |s| && j <= |t| && s[j..] == t[j..]
    requires forall i :: 0 <= i < j ==> s[i] == t[i]
    ensures s == t
  {
    assert s == s[..j] + s[j..] && t == t[..j] + t[j..];
  }

  lemma {:induction false} SameCut(dir: Dir, j: nat, k: nat, s: seq<string>, t: seq<string>, name: string)
    requires j <= |s| && k <= |t| && |dir| == j + k && forall i :: 0 <= i < |dir| ==> dir[i] == name
    requires name !in s && name !in t
    requires dir[..k] + s[j..] == dir[..j] + t[k..]
    ensures j == k && s[j..] == t[k..]
  {
    CountName(dir[..k], s[j..], name);
    CountName(dir[..j], t[k..], name);
    assert s[j..] == (dir[..k] + s[j..])[k..] == t[k..];
  }

  lemma {:induction false} CountName(a: seq<string>, b: seq<string>, name: string)
    requires (forall i :: 0 <= i < |a| ==> a[i] == name) && name !in b
    ensures multiset(a + b)[name] == |a|
  {
    if a == [] {
      assert a + b == b;
    } else {
      CountName(a[1..], b, name);
      assert a + b == [name] + (a[1..] + b);
    }
  }

  /** The stack the machine ends with. */
  function StackOf(path: string): seq<string> {
    Reduce([], Parts(path), IsAbsolute(path))
  }

  lemma {:induction false} StackOfFacts(path: string, dir: Dir)
    ensures IsStack(StackOf(path), IsAbsolute(path))
    ensures Normalize(path) == Unparse(StackOf(path), IsAbsolute(path))
    ensures Walk(if IsAbsolute(path) then [] else dir, StackOf(path)) == Meaning(path, dir)
  {
    PartsHoldNoSlash(path);
    ReduceIsStack(Parts(path), IsAbsolute(path));
    ReduceKeepsMeaning(Parts(path), IsAbsolute(path), if IsAbsolute(path) then [] else dir);
    assert path == "" ==> Parts(path) == [];
  }

  /** Two paths have the same normal form exactly when both or neither are absolute and
      they lead from every directory to the same place. */
  lemma {:induction false} NormalizeIsCanonical(p: string, q: string)
    ensures Normalize(p) == Normalize(q) <==> SameMeaning(p, q)
  {
    NormalIsNormal(p);
    NormalIsNormal(q);
    NormalizeKeepsMeaning(p);
    NormalizeKeepsMeaning(q);
    if SameMeaning(p, q) {
      SameMeaningSameStack(p, q);
      StackOfFacts(p, []);
      StackOfFacts(q, []);
    }
  }

  ghost predicate SameMeaning(p: string, q: string) {
    IsAbsolute(p) == IsAbsolute(q) && forall dir :: IsDir(dir) ==> Meaning(p, dir) == Meaning(q, dir)
  }

  lemma {:induction false} SameMeaningSameStack(p: string, q: string)
    requires SameMeaning(p, q)
    ensures StackOf(p) == StackOf(q)
  {
    var name := FreshName(StackOf(p) + StackOf(q));
    var dir := seq(Ups(StackOf(p)) + Ups(StackOf(q)), i => name);
    SameFrom(p, q, dir, name);
    OneDirTellsStacks(p, q, name, dir);
  }

  lemma {:induction false} SameFrom(p: string, q: string, dir: Dir, name: string)
    requires SameMeaning(p, q) && IsName(name) && forall k :: 0 <= k < |dir| ==> dir[k] == name
    ensures Meaning(p, dir) == Meaning(q, dir)
  {
    assert IsDir(dir);
  }

  lemma {:induction false} OneDirTellsStacks(p: string, q: string, name: string, dir: Dir)
    requires IsAbsolute(p) == IsAbsolute(q) && name !in StackOf(p) + StackOf(q)
    requires dir == seq(Ups(StackOf(p)) + Ups(StackOf(q)), i => name)
    requires Meaning(p, dir) == Meaning(q, dir)
    ensures StackOf(p) == StackOf(q)
  {
    StackOfFacts(p, dir);
    StackOfFacts(q, dir);
    if IsAbsolute(p) {
      NoUps(StackOf(p));
      NoUps(StackOf(q));
      assert dir == [];
    }
    StackIsCanonical(StackOf(p), StackOf(q), name, dir, IsAbsolute(p));
  }

  lemma {:induction false} NoUps(stack: seq<string>)
    requires IsStack(stack, true)
    ensures Ups(stack) == 0
  {
  }

  // ---------------------------------------------------------------------------
  // Laws

  lemma {:induction false} NormalizeIsIdempotent(path: string)
    ensures Normalize(Normalize(path)) == Normalize(path)
  {
    NormalIsNormal(path);
    NormalizeKeepsMeaning(path);
    NormalizeIsCanonical(Normalize(path), path);
  }

  /** Resolving composes meanings; an empty base counts as the root. */
  lemma {:induction false} ResolveMeaning(base: string, relative: string, dir: Dir)
    requires IsDir(dir)
    ensures Meaning(Resolve(base, relative), dir) == Meaning(relative, Meaning(if base == "" then "/" else base, dir))
    ensures IsAbsolute(Resolve(base, relative)) == (IsAbsolute(relative) || IsAbsolute(base) || base == "")
    ensures Resolve(base, relative) != ""
  {
    var combined := if IsAbsolute(relative) then relative else Trimmed(base) + "/" + relative;
    assert EndsWithSlash(base) ==> base == Trimmed(base) + "/";
    assert Resolve(base, relative) == Normalize(combined);
    NormalIsNormal(combined);
    NormalizeKeepsMeaning(combined);
    NormalIsNotEmpty(combined);
    if !IsAbsolute(relative) {
      SlashedMeaning(base, relative, dir);
    }
  }

  lemma {:induction false} SlashedMeaning(base: string, relative: string, dir: Dir)
    requires !IsAbsolute(relative)
    ensures var combined := Trimmed(base) + "/" + relative;
      && Meaning(combined, dir) == Meaning(relative, Meaning(if base == "" then "/" else base, dir))
      && IsAbsolute(combined) == (IsAbsolute(base) || base == "")
  {
    PartsOfTrimmed(base);
    PartsOfSlashed(Trimmed(base), relative);
    PartsOfRoot();
    WalkConcat(if IsAbsolute(base) || base == "" then [] else dir, Parts(base), Parts(relative));
  }

  lemma {:induction false} NormalIsNotEmpty(path: string)
    ensures Normalize(path) != ""
  {
    StackOfFacts(path, []);
    PartsOfUnparse(StackOf(path), IsAbsolute(path));
  }

  lemma {:induction false} PartsOfTrimmed(path: string)
    ensures Parts(Trimmed(path)) == Parts(path)
  {
    if EndsWithSlash(path) {
      PartsOfTrailing(path);
    }
  }

  lemma {:induction false} JoinOfTwo(b: string, c: string)
    ensures Join(NonEmpty([b, c]), '/') == if b == "" then c else if c == "" then b else b + "/" + c
  {
    assert [b, c][1..] == [c] && [c][1..] == [];
    assert NonEmpty([c]) == if c == "" then [] else [c];
  }

  /** Joining composes meanings, for a relative second path. */
  lemma {:induction false} JoinMeaning(b: string, c: string, dir: Dir)
    requires IsDir(dir) && !IsAbsolute(c)
    ensures Meaning(JoinPaths([b, c]), dir) == Meaning(c, Meaning(b, dir))
    ensures IsAbsolute(JoinPaths([b, c])) == IsAbsolute(b)
  {
    var joined := Join(NonEmpty([b, c]), '/');
    JoinOfTwo(b, c);
    NormalIsNormal(joined);
    NormalizeKeepsMeaning(joined);
    PartsOfSlashed(b, c);
    WalkConcat(if IsAbsolute(b) then [] else dir, Parts(b), Parts(c));
  }

  /** Early and late normalisation agree, for every base and every relative last path. */
  lemma {:induction false} ResolveIsAssociative(a: string, b: string, c: string)
    requires !IsAbsolute(c)
    ensures Resolve(Resolve(a, b), c) == Resolve(a, JoinPaths([b, c]))
  {
    var left, right := Resolve(Resolve(a, b), c), Resolve(a, JoinPaths([b, c]));
    var a' := if a == "" then "/" else a;
    forall dir | IsDir(dir) ensures Meaning(left, dir) == Meaning(right, dir) {
      ResolveMeaning(a, b, dir);
      ResolveMeaning(Resolve(a, b), c, dir);
      MeaningIsDir(a', dir);
      JoinMeaning(b, c, Meaning(a', dir));
      ResolveMeaning(a, JoinPaths([b, c]), dir);
    }
    ResolveMeaning(a, b, []);
    ResolveMeaning(Resolve(a, b), c, []);
    JoinMeaning(b, c, []);
    ResolveMeaning(a, JoinPaths([b, c]), []);
    NormalizeIsCanonical(left, right);
    ResolveIsNormal(Resolve(a, b), c);
    ResolveIsNormal(a, JoinPaths([b, c]));
  }

  lemma {:induction false} MeaningIsDir(path: string, dir: Dir)
    requires IsDir(dir)
    ensures IsDir(Meaning(path, dir))
  {
    PartsHoldNoSlash(path);
    WalkIsDir(if IsAbsolute(path) then [] else dir, Parts(path));
  }

  lemma {:induction false} ResolveIsNormal(base: string, relative: string)
    ensures Normalize(Resolve(base, relative)) == Resolve(base, relative)
  {
    NormalizeIsIdempotent(relative);
    NormalizeIsIdempotent(if EndsWithSlash(base) then base + relative else base + "/" + relative);
  }

  lemma {:induction false} LastSlash(d: string, b: string)
    requires '/' !in b
    ensures LastIndexOf(b, '/') == -1 && LastIndexOf(d + "/" + b, '/') == |d|
  {
    var s := d + "/" + b;
    assert s[|d|] == '/' && forall k :: |d| < k < |s| ==> s[k] == b[k - |d| - 1];
    var i := LastIndexOf(s, '/');
    assert i >= |d|;
  }

  /** The directory and the base name of a path are what stands before and behind the slash in
      front of its last name, whether or not one slash stands behind that. */
  lemma {:induction false} DirnameIs(d: string, b: string, final: string)
    requires b != "" && '/' !in b && final in ["", "/"]
    ensures var p := d + "/" + b + final; Dirname(p) == (if d == "" then "/" else d) && Basename(p) == b
    ensures Dirname(b + final) == "." && Basename(b + final) == b
  {
    var whole := d + "/" + b;
    LastSlash(d, b);
    assert whole[|whole| - 1] == b[|b| - 1];
    TrimmedIs(whole, final);
    TrimmedIs(b, final);
    assert whole[..|d|] == d && whole[|d| + 1..] == b;
  }

  lemma TrimmedIs(t: string, final: string)
    requires t != "" && t[|t| - 1] != '/' && final in ["", "/"]
    ensures Trimmed(t + final) == t && t + final != "" && t + final != "/"
  {
    assert (t + final)[..|t|] == t;
  }

  /** Joining the directory and the base name of a path normalises it, for every path but
      the empty one, whose directory is said to be the root. */
  lemma {:induction false} DirnameAndBasename(path: string)
    ensures JoinPaths([Dirname(path), Basename(path)]) == Normalize(path) <==> path != ""
  {
    var d, b := Dirname(path), Basename(path);
    JoinOfTwo(d, b);
    if path == "" {
      PartsOfRoot();
      assert JoinPaths([d, b]) == "/";
    } else {
      DirnameParts(path);
      BasenameIsRelative(path);
      DirnameIsThere(path);
      DirnameIsAsAbsolute(path);
      forall dir | IsDir(dir) ensures Meaning(JoinPaths([d, b]), dir) == Meaning(path, dir) {
        JoinMeaning(d, b, dir);
        var from := if IsAbsolute(path) then [] else dir;
        WalkConcat(from, if '/' in Trimmed(path) || path == "/" then Parts(d) else [], Parts(b));
        WalkSnoc(from, [], ".");
      }
      JoinMeaning(d, b, []);
      assert SameMeaning(JoinPaths([d, b]), path);
      NormalizeIsCanonical(JoinPaths([d, b]), path);
      NormalizeIsIdempotent(Join(NonEmpty([d, b]), '/'));
    }
  }

  lemma {:induction false} DirnameParts(path: string)
    requires path != ""
    ensures if '/' in Trimmed(path) || path == "/" then Parts(path) == Parts(Dirname(path)) + Parts(Basename(path))
            else Dirname(path) == "." && Parts(path) == Parts(Basename(path))
    ensures Parts(".") == ["."]
  {
    var t := Trimmed(path);
    SplitPlain(".", '/');
    PartsOfTrimmed(path);
    PartsOfRoot();
    var i := LastIndexOf(t, '/');
    if path != "/" && i >= 0 {
      PartsOfCut(t, i);
      assert Basename(path) == t[i + 1..];
      assert i == 0 ==> t[..i] == "";
    }
  }

  lemma {:induction false} BasenameIsRelative(path: string)
    requires path != ""
    ensures !IsAbsolute(Basename(path))
  {
  }

  lemma {:induction false} DirnameIsThere(path: string)
    requires path != ""
    ensures Dirname(path) != ""
  {
  }

  lemma {:induction false} DirnameIsAsAbsolute(path: string)
    requires path != ""
    ensures IsAbsolute(Dirname(path)) == IsAbsolute(path)
  {
  }

  lemma {:induction false} PartsOfCut(t: string, i: nat)
    requires i < |t| && t[i] == '/'
    ensures Parts(t) == Parts(t[..i]) + Parts(t[i + 1..])
  {
    assert t == t[..i] + "/" + t[i + 1..];
    PartsOfSlashed(t[..i], t[i + 1..]);
  }
}
