/** isGlob and base of rom/lib/glob.ts. */
module GlobBase {
  // What a pattern that is no glob matches, and what every path a glob matches starts with.

  import opened Options
  import opened Regex
  import opened Sequences
  import opened Text
  import opened Glob
  import opened GlobMeaning

  predicate IsGlobFrom(p: string, i: nat)
    decreases |p| - i
  {
    if i >= |p| then false
    else if p[i] == '\\' then IsGlobFrom(p, i + 2)
    else if p[i] == '*' || p[i] == '?' || p[i] == '[' then true
    else IsGlobFrom(p, i + 1)
  }

  /** isGlob: is there a glob character that is not escaped?  When there is none, the
      pattern matches one path, the pattern without its escapes. */
  method IsGlob(pattern: string) returns (found: bool)
    ensures found == IsGlobFrom(pattern, 0)
    ensures !found ==> forall path, o: GlobOptions ::
      !o.noescape || '\\' !in pattern ==> Match(path, pattern, o) == Some(path == Unescape(pattern, 0))
  {
    forall path, o: GlobOptions | !IsGlobFrom(pattern, 0) && (!o.noescape || '\\' !in pattern)
      ensures Match(path, pattern, o) == Some(path == Unescape(pattern, 0))
    {
      PlainPatternMatchesItself(path, pattern, o);
    }
    var i := 0;
    while i < |pattern|
      invariant IsGlobFrom(pattern, 0) == IsGlobFrom(pattern, i)
    {
      if pattern[i] == '\\' {
        i := i + 2;
        continue;
      }
      if pattern[i] == '*' || pattern[i] == '?' || pattern[i] == '[' {
        return true;
      }
      i := i + 1;
    }
    return false;
  }

  /** The pattern with the backslash of each escape removed. */
  function Unescape(p: string, i: nat): string
    decreases |p| - i
  {
    if i >= |p| then ""
    else if p[i] == '\\' && i + 1 < |p| then [p[i + 1]] + Unescape(p, i + 2)
    else [p[i]] + Unescape(p, i + 1)
  }

  function Chars(s: string): seq<Token> {
    seq(|s|, k requires 0 <= k < |s| => Char(s[k]))
  }

  lemma CharsCons(c: char, s: string)
    ensures Chars([c] + s) == [Char(c)] + Chars(s)
  {
  }

  // ---------------------------------------------------------------------------
  // Literal patterns

  lemma CharMatches(c: char, rest: seq<Token>, path: string, dot: bool)
    ensures GlobMatch([Char(c)] + rest, path, dot) <==>
      path != "" && path[0] == c && GlobMatch(rest, path[1..], dot)
  {
    var tokens := [Char(c)] + rest;
    assert tokens[1..] == rest;
    if GlobMatch(tokens, path, dot) {
      var k :| 0 <= k <= |path| && Takes(Char(c), path[..k], dot) && GlobMatch(rest, path[k..], dot);
      assert path[..k][0] == path[0];
    }
    if path != "" && path[0] == c && GlobMatch(rest, path[1..], dot) {
      assert Takes(Char(c), path[..1], dot);
    }
  }

  lemma {:induction false} CharsMatch(s: string, rest: seq<Token>, path: string, dot: bool)
    ensures GlobMatch(Chars(s) + rest, path, dot) <==> s <= path && GlobMatch(rest, path[|s|..], dot)
  {
    if s == "" {
      assert Chars(s) + rest == rest && path[0..] == path;
    } else {
      assert s == [s[0]] + s[1..];
      CharsCons(s[0], s[1..]);
      Regroup([Char(s[0])], Chars(s[1..]), rest);
      CharMatches(s[0], Chars(s[1..]) + rest, path, dot);
      if path != "" {
        CharsMatch(s[1..], rest, path[1..], dot);
        assert s <= path <==> s[0] == path[0] && s[1..] <= path[1..];
        assert s <= path ==> path[1..][|s[1..]|..] == path[|s|..];
      }
    }
  }

  lemma {:induction false} PlainPatternReads(p: string, o: GlobOptions, i: nat)
    requires i <= |p| && !IsGlobFrom(p, i) && (!o.noescape || '\\' !in p)
    ensures Read(p, o, i) == Some(Chars(Unescape(p, i)))
    decreases |p| - i
  {
    if i < |p| {
      var next := if Escapes(p, o, i) then i + 2 else i + 1;
      PlainPatternReads(p, o, next);
      var c := if Escapes(p, o, i) then p[i + 1] else p[i];
      assert Unescape(p, i) == [c] + Unescape(p, next);
      CharsCons(c, Unescape(p, next));
      assert Read(p, o, i) == Cons(Char(c), Read(p, o, next));
    } else {
      assert Unescape(p, i) == "" && Chars("") == [];
    }
  }

  /** A pattern that is no glob matches itself, less its escapes, and nothing else. */
  lemma PlainPatternMatchesItself(path: string, p: string, o: GlobOptions)
    requires !IsGlobFrom(p, 0) && (!o.noescape || '\\' !in p)
    ensures Match(path, p, o) == Some(path == Unescape(p, 0))
  {
    var s := Unescape(p, 0);
    PlainPatternReads(p, o, 0);
    MatchIsGlobMatch(path, p, o);
    CharsMatch(s, [], path, o.dot);
    assert Chars(s) + [] == Chars(s);
    assert s <= path && path[|s|..] == "" ==> path == s;
  }

  // ---------------------------------------------------------------------------
  // base

  /** How many leading components hold no glob character. */
  function PlainParts(parts: seq<string>): (n: nat)
    ensures n <= |parts|
    ensures forall k :: 0 <= k < n ==> !IsGlobFrom(parts[k], 0)
    ensures n < |parts| ==> IsGlobFrom(parts[n], 0)
  {
    if parts == [] || IsGlobFrom(parts[0], 0) then 0 else 1 + PlainParts(parts[1..])
  }

  function BaseOf(p: string): string {
    var parts := Split(p, '/');
    Join(parts[..PlainParts(parts)], '/')
  }

  /** base: the components before the first glob one.  When there are some, and the pattern
      has no backslash, every matching path starts with them. */
  method Base(pattern: string) returns (base: string)
    ensures base == BaseOf(pattern)
    ensures var parts := Split(pattern, '/');
      '\\' !in pattern && 0 < PlainParts(parts) < |parts| ==>
      forall path, o :: Match(path, pattern, o) == Some(true) ==> base + "/" <= path
  {
    var parts := Split(pattern, '/');
    var baseParts: seq<string> := [];
    for k := 0 to |parts|
      invariant baseParts == parts[..k] && k <= PlainParts(parts)
    {
      var glob := IsGlob(parts[k]);
      if glob {
        break;
      }
      baseParts := baseParts + [parts[k]];
    }
    base := Join(baseParts, '/');
    if '\\' !in pattern && 0 < PlainParts(parts) < |parts| {
      forall path, o | Match(path, pattern, o) == Some(true) ensures base + "/" <= path {
        MatchesStartWithBase(path, pattern, o);
      }
    }
  }

  predicate IsPlain(c: char) {
    c != '\\' && c != '*' && c != '?' && c != '['
  }

  lemma {:induction false} PlainCharacters(p: string, i: nat)
    requires '\\' !in p && !IsGlobFrom(p, i)
    ensures forall k :: i <= k < |p| ==> IsPlain(p[k])
    decreases |p| - i
  {
    if i < |p| {
      PlainCharacters(p, i + 1);
    }
  }

  lemma {:induction false} PlainPrefixReads(p: string, o: GlobOptions, i: nat, n: nat)
    requires i <= n <= |p| && forall k :: i <= k < n ==> IsPlain(p[k]) || (o.noescape && p[k] == '\\')
    ensures Read(p, o, i).Some? == Read(p, o, n).Some?
    ensures Read(p, o, n).Some? ==> Read(p, o, i).value == Chars(p[i..n]) + Read(p, o, n).value
    decreases n - i
  {
    if i == n {
      assert Chars(p[i..n]) == [];
    } else {
      PlainPrefixReads(p, o, i + 1, n);
      assert Read(p, o, i) == Cons(Char(p[i]), Read(p, o, i + 1));
      assert p[i..n] == [p[i]] + p[i + 1..n];
      CharsCons(p[i], p[i + 1..n]);
      if Read(p, o, n).Some? {
        Regroup([Char(p[i])], Chars(p[i + 1..n]), Read(p, o, n).value);
      }
    }
  }

  lemma {:induction false} JoinedArePlain(parts: seq<string>)
    requires forall k :: 0 <= k < |parts| ==> '\\' !in parts[k] && !IsGlobFrom(parts[k], 0)
    ensures forall k :: 0 <= k < |Join(parts, '/')| ==> IsPlain(Join(parts, '/')[k])
  {
    if parts != [] {
      PlainCharacters(parts[0], 0);
      if |parts| > 1 {
        JoinedArePlain(parts[1..]);
        var a, b := parts[0], Join(parts[1..], '/');
        assert forall k :: 0 <= k < |Join(parts, '/')| ==>
          Join(parts, '/')[k] == if k < |a| then a[k] else if k == |a| then '/' else b[k - |a| - 1];
      }
    }
  }

  lemma {:induction false} NoBackslashInParts(p: string)
    requires '\\' !in p
    ensures forall k :: 0 <= k < |Split(p, '/')| ==> '\\' !in Split(p, '/')[k]
  {
    if p == "" {
    } else {
      NoBackslashInParts(p[1..]);
    }
  }

  lemma {:induction false} JoinCut(parts: seq<string>, k: nat)
    requires 0 < k < |parts|
    ensures Join(parts[..k], '/') + "/" <= Join(parts, '/')
  {
    if k == 1 {
      assert parts[..1] == [parts[0]];
    } else {
      JoinCut(parts[1..], k - 1);
      assert parts[..k][1..] == parts[1..][..k - 1];
    }
  }

  /** Every path a pattern matches starts with the components before its first glob one. */
  lemma MatchesStartWithBase(path: string, p: string, o: GlobOptions)
    requires '\\' !in p && 0 < PlainParts(Split(p, '/')) < |Split(p, '/')|
    requires Match(path, p, o) == Some(true)
    ensures BaseOf(p) + "/" <= path
  {
    var parts := Split(p, '/');
    var n := PlainParts(parts);
    var prefix := BaseOf(p) + "/";
    JoinOfSplit(p, '/');
    JoinCut(parts, n);
    NoBackslashInParts(p);
    JoinedArePlain(parts[..n]);
    assert p[0..|prefix|] == prefix;
    assert forall k :: 0 <= k < |prefix| ==> p[k] == prefix[k] && IsPlain(p[k]);
    MatchIsGlobMatch(path, p, o);
    PlainPrefixReads(p, o, 0, |prefix|);
    CharsMatch(prefix, Read(p, o, |prefix|).value, path, o.dot);
  }

  // ---------------------------------------------------------------------------
  // A pattern a reader may not expect

  /** A negated bracket accepts a slash, so it lets a match cross segments. */
  lemma NegatedBracketCrossesSegments()
    ensures Match("/", "[!a]", GlobOptions(false, false)) == Some(true)
  {
    var o := GlobOptions(false, false);
    var p := "[!a]";
    assert ReadMembers(p, o, 3) == Some(([], 4));
    assert MemberOf('a') == Single('a', false);
    assert [MemberOf('a')] + [] == [Single('a', false)];
    assert ReadMembers(p, o, 2) == Prepend([MemberOf('a')], ReadMembers(p, o, 3));
    assert ReadMembers(p, o, 2) == Some(([Single('a', false)], 4));
    assert Read(p, o, 4) == Some([]);
    var t := Bracket(true, [Single('a', false)]);
    assert Read(p, o, 0) == Cons(t, Read(p, o, 4)) == Some([t] + []);
    assert [t] + [] == [t];
    assert [t][1..] == [];
    assert "/"[..1] == "/" && "/"[1..] == "";
    assert Takes(t, "/", false);
    MatchIsGlobMatch("/", p, o);
  }
}
