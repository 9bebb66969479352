/** Globs part by part. */
module GlobPatterns {
  // What match does with a pattern of plain text and one other part, wherever that part stands,
  // and with a pattern behind plain components.  Stated on the texts alone.

  import opened Options
  import opened Regex
  import opened Sequences
  import opened Text
  import opened Glob
  import opened GlobMeaning
  import opened GlobBase

  /** Text that stands for itself in a pattern. */
  predicate IsText(o: GlobOptions, x: string) {
    forall k :: 0 <= k < |x| ==> IsPlain(x[k]) || (o.noescape && x[k] == '\\')
  }

  /** The path begins with one text and ends, behind it, in another. */
  predicate Around(path: string, n: string, x: string) {
    |n| + |x| <= |path| && n <= path && path[|path| - |x|..] == x
  }

  /** What stands between them. */
  function Middle(path: string, n: string, x: string): string
    requires Around(path, n, x)
  {
    path[|n|..|path| - |x|]
  }

  /** Does a wildcard behind this text stand at the start of a component? */
  predicate EndsComponent(n: string) {
    n == "" || n[|n| - 1] == '/'
  }

  // ---------------------------------------------------------------------------
  // One part

  lemma NameMatches(x: string, s: string, dot: bool)
    ensures GlobMatch(Chars(x), s, dot) <==> s == x
  {
    CharsMatch(x, [], s, dot);
    assert Chars(x) + [] == Chars(x);
    assert x <= s && s[|x|..] == "" ==> s == x;
  }

  lemma OneThenName(t: Token, x: string, path: string, dot: bool)
    ensures GlobMatch([t] + Chars(x), path, dot)
      <==> Around(path, "", x) && Takes(t, path[..|path| - |x|], dot)
  {
    var tokens := [t] + Chars(x);
    assert tokens[1..] == Chars(x);
    if GlobMatch(tokens, path, dot) {
      var k :| 0 <= k <= |path| && Takes(t, path[..k], dot) && GlobMatch(Chars(x), path[k..], dot);
      NameMatches(x, path[k..], dot);
      assert k == |path| - |x|;
    }
    if Around(path, "", x) && Takes(t, path[..|path| - |x|], dot) {
      NameMatches(x, path[|path| - |x|..], dot);
    }
  }

  lemma MiddleOfTail(path: string, n: string, x: string)
    requires n <= path
    ensures var tail := path[|n|..];
      && (Around(tail, "", x) <==> Around(path, n, x))
      && (Around(path, n, x) ==> tail[..|tail| - |x|] == Middle(path, n, x))
  {
    var tail := path[|n|..];
    if |n| + |x| <= |path| {
      assert tail[|tail| - |x|..] == path[|path| - |x|..];
    }
  }

  lemma OneBetween(n: string, t: Token, x: string, path: string, dot: bool)
    ensures GlobMatch(Chars(n) + ([t] + Chars(x)), path, dot)
      <==> Around(path, n, x) && Takes(t, Middle(path, n, x), dot)
  {
    CharsMatch(n, [t] + Chars(x), path, dot);
    if n <= path {
      OneThenName(t, x, path[|n|..], dot);
      MiddleOfTail(path, n, x);
    }
  }

  lemma PartText(n: string, w: string, x: string)
    ensures var p, k := n + w + x, |n| + |w|;
      n <= p && p[k..] == x
  {
  }

  lemma TextReads(p: string, o: GlobOptions, k: nat)
    requires k <= |p| && IsText(o, p[k..])
    ensures Read(p, o, k) == Some(Chars(p[k..]))
  {
    assert forall j :: k <= j < |p| ==> p[j] == p[k..][j - k];
    PlainPrefixReads(p, o, k, |p|);
    assert p[k..|p|] == p[k..] && Chars(p[k..]) + [] == Chars(p[k..]);
  }

  /** The tokens of plain text, one other part, and plain text. */
  lemma PartReads(p: string, n: string, w: string, x: string, t: Token, o: GlobOptions)
    requires p == n + w + x && w != "" && IsText(o, n) && IsText(o, x)
    requires Read(p, o, |n|) == Cons(t, Read(p, o, |n| + |w|))
    ensures Read(p, o, 0) == Some(Chars(n) + ([t] + Chars(x)))
  {
    var k := |n| + |w|;
    PartText(n, w, x);
    TextReads(p, o, k);
    assert Read(p, o, |n|) == Some([t] + Chars(x));
    PrefixReads(p, o, n, [t] + Chars(x));
  }

  lemma PrefixReads(p: string, o: GlobOptions, n: string, rest: seq<Token>)
    requires n <= p && IsText(o, n) && Read(p, o, |n|) == Some(rest)
    ensures Read(p, o, 0) == Some(Chars(n) + rest)
  {
    assert p[0..|n|] == n && forall j :: 0 <= j < |n| ==> p[j] == n[j];
    PlainPrefixReads(p, o, 0, |n|);
  }

  lemma PartMatches(p: string, n: string, w: string, x: string, t: Token, path: string, o: GlobOptions)
    requires p == n + w + x && w != "" && IsText(o, n) && IsText(o, x)
    requires Read(p, o, |n|) == Cons(t, Read(p, o, |n| + |w|))
    ensures Match(path, p, o) ==
      if t.Bracket? && !ValidMembers(t.members) then None
      else Some(Around(path, n, x) && Takes(t, Middle(path, n, x), o.dot))
  {
    var tokens := Chars(n) + ([t] + Chars(x));
    PartReads(p, n, w, x, t, o);
    assert tokens[|n|] == t;
    OneBetween(n, t, x, path, o.dot);
    MatchIsGlobMatch(path, p, o);
  }

  // ---------------------------------------------------------------------------
  // Wildcards

  /** `*` takes what has no slash; without `dot`, at the start of a component, also nothing that
      begins with a dot. */
  lemma StarBetween(n: string, x: string, path: string, o: GlobOptions)
    requires IsText(o, n) && IsText(o, x)
    ensures Match(path, n + "*" + x, o) == Some(Around(path, n, x) && var s := Middle(path, n, x);
      '/' !in s && (o.dot || !EndsComponent(n) || s == "" || s[0] != '.'))
  {
    var p := n + "*" + x;
    assert p[|n|] == '*' && (x != "" ==> p[|n| + 1] == x[0]) && (n != "" ==> p[|n| - 1] == n[|n| - 1]);
    PartMatches(p, n, "*", x, Star(EndsComponent(n)), path, o);
  }

  /** `?` takes one character that is no slash; without `dot`, at the start of a component, also
      no dot. */
  lemma QuestionBetween(n: string, x: string, path: string, o: GlobOptions)
    requires IsText(o, n) && IsText(o, x)
    ensures Match(path, n + "?" + x, o) == Some(Around(path, n, x) && var s := Middle(path, n, x);
      |s| == 1 && s != "/" && (o.dot || !EndsComponent(n) || s != "."))
  {
    var p := n + "?" + x;
    assert p[|n|] == '?' && (n != "" ==> p[|n| - 1] == n[|n| - 1]);
    PartMatches(p, n, "?", x, One(EndsComponent(n)), path, o);
  }

  /** `**` that is no component of its own takes what has no slash, hidden or not, whatever `dot`
      says. */
  lemma DoubleStarBetween(n: string, x: string, path: string, o: GlobOptions)
    requires IsText(o, n) && IsText(o, x) && !(EndsComponent(n) && (x == "" || x[0] == '/'))
    ensures Match(path, n + "**" + x, o) == Some(Around(path, n, x) && '/' !in Middle(path, n, x))
  {
    var p := n + "**" + x;
    assert p[|n|] == '*' && p[|n| + 1] == '*' && (n != "" ==> p[|n| - 1] == n[|n| - 1]);
    assert x != "" ==> p[|n| + 2] == x[0];
    PartMatches(p, n, "**", x, DoubleStar, path, o);
  }

  predicate IsOneLine(s: string) {
    forall k :: 0 <= k < |s| ==> s[k] !in {'\n', '\r', '\U{2028}', '\U{2029}'}
  }

  lemma OneLineIs(s: string)
    ensures IsOneLine(s) <==> NoLineTerminator(s)
  {
    forall k | 0 <= k < |s| ensures IsLineTerminator(s[k]) <==> s[k] in {'\n', '\r', '\U{2028}', '\U{2029}'} {
    }
  }

  /** Segments that `**` passes without `dot`: also hidden ones, unless they are a lone dot or
      begin with two. */
  predicate ArePassedUnseen(segments: seq<string>) {
    forall k :: 0 <= k < |segments| ==> segments[k] != "" && segments[k] != "." && !(".." <= segments[k])
  }

  /** Nothing, or segments with a slash behind each: with `dot` any on one line. */
  predicate AreFolders(s: string, dot: bool) {
    s == "" || (s[|s| - 1] == '/' && if dot then IsOneLine(s) else ArePassedUnseen(Split(s[..|s| - 1], '/')))
  }

  lemma OpenSegments(segments: seq<string>)
    ensures ArePassedUnseen(segments) <==> forall k :: 0 <= k < |segments| ==> IsOpenSegment(segments[k])
  {
    forall k | 0 <= k < |segments|
      ensures IsOpenSegment(segments[k]) <==>
        segments[k] != "" && segments[k] != "." && !(".." <= segments[k])
    {
      var s := segments[k];
      assert |s| == 1 && s[0] == '.' ==> s == ".";
      assert |s| > 1 && s[0] == '.' && s[1] == '.' ==> s[..2] == "..";
    }
  }

  lemma OneLineSegments(s: string)
    requires s != "" && s[|s| - 1] == '/'
    ensures IsOneLine(s) <==> NoLineTerminator(s[..|s| - 1])
  {
    var body := s[..|s| - 1];
    OneLineIs(body);
    assert s == body + ['/'];
    assert forall k :: 0 <= k < |body| ==> s[k] == body[k];
  }

  lemma FoldersAreWhole(s: string, dot: bool)
    ensures AreWholeSegments(s, dot) <==> AreFolders(s, dot)
  {
    if s != "" && s[|s| - 1] == '/' {
      if dot {
        OneLineSegments(s);
      } else {
        OpenSegments(Split(s[..|s| - 1], '/'));
      }
    }
  }

  /** `**` and a slash, at the start of a component, take whole segments with their slashes. */
  lemma GlobstarBetween(n: string, x: string, path: string, o: GlobOptions)
    requires IsText(o, n) && IsText(o, x) && EndsComponent(n)
    ensures Match(path, n + "**/" + x, o) == Some(Around(path, n, x) && AreFolders(Middle(path, n, x), o.dot))
  {
    var p := n + "**/" + x;
    assert p[|n|] == '*' && p[|n| + 1] == '*' && p[|n| + 2] == '/' && (n != "" ==> p[|n| - 1] == n[|n| - 1]);
    PartMatches(p, n, "**/", x, Globstar, path, o);
    if Around(path, n, x) {
      FoldersAreWhole(Middle(path, n, x), o.dot);
    }
  }

  /** A final `**` takes nothing or what has no line terminator behind its first character, which
      without `dot` is no dot and no slash, and with `dot` has none either. */
  lemma FinalGlobstar(n: string, path: string, o: GlobOptions)
    requires IsText(o, n) && EndsComponent(n)
    ensures Match(path, n + "**", o) == Some(n <= path && var s := path[|n|..];
      s == "" || if o.dot then IsOneLine(s) else s[0] != '.' && s[0] != '/' && IsOneLine(s[1..]))
  {
    var p := n + "**";
    assert p == n + "**" + "";
    assert p[|n|] == '*' && p[|n| + 1] == '*' && (n != "" ==> p[|n| - 1] == n[|n| - 1]);
    PartMatches(p, n, "**", "", GlobstarEnd, path, o);
    if n <= path {
      var s := path[|n|..];
      assert Around(path, n, "") && Middle(path, n, "") == s;
      OneLineIs(s);
      if s != "" {
        OneLineIs(s[1..]);
      }
    }
  }

  /** An escaped character stands for itself, whatever it is. */
  lemma EscapeBetween(n: string, c: char, x: string, path: string, o: GlobOptions)
    requires IsText(o, n) && IsText(o, x) && !o.noescape
    ensures Match(path, n + ['\\', c] + x, o) == Some(path == n + [c] + x)
  {
    var p := n + ['\\', c] + x;
    assert p[|n|] == '\\' && p[|n| + 1] == c;
    PartMatches(p, n, ['\\', c], x, Char(c), path, o);
    if Around(path, n, x) {
      assert path == n + Middle(path, n, x) + x;
    }
    if path == n + [c] + x {
      assert Middle(path, n, x) == [c];
    }
  }

  // ---------------------------------------------------------------------------
  // Brackets

  /** A character that stands for itself inside brackets. */
  predicate IsMember(c: char) {
    c != ']' && c != '[' && c != '\\' && c != '-' && c != '!' && c != '^'
  }

  function Singles(m: string): (r: seq<Member>)
    ensures |r| == |m| && forall k :: 0 <= k < |m| ==> r[k] == Single(m[k], IsSpecial(m[k]))
  {
    seq(|m|, k requires 0 <= k < |m| => Single(m[k], IsSpecial(m[k])))
  }

  lemma {:induction false} SinglesAccept(m: string, c: char)
    ensures InMembers(Singles(m), c) <==> c in m
    ensures ValidMembers(Singles(m))
  {
    if m != "" {
      assert Singles(m)[1..] == Singles(m[1..]);
      SinglesAccept(m[1..], c);
    }
  }

  lemma SinglesCons(c: char, m: string)
    ensures Singles([c] + m) == [Single(c, IsSpecial(c))] + Singles(m)
  {
  }

  lemma OneMember(p: string, o: GlobOptions, i: nat)
    requires i < |p| && (IsMember(p[i]) || p[i] == '-')
    ensures ReadMembers(p, o, i) == Prepend([MemberOf(p[i])], ReadMembers(p, o, i + 1))
  {
  }

  lemma {:induction false} MembersAreRead(p: string, o: GlobOptions, i: nat, j: nat)
    requires i <= j <= |p| && ReadMembers(p, o, j).Some? && forall k :: i <= k < j ==> IsMember(p[k])
    ensures ReadMembers(p, o, i) == Prepend(Singles(p[i..j]), ReadMembers(p, o, j))
    decreases j - i
  {
    var (rest, end) := ReadMembers(p, o, j).value;
    if i == j {
      assert p[i..j] == "" && Singles("") + rest == rest;
    } else {
      MembersAreRead(p, o, i + 1, j);
      OneMember(p, o, i);
      assert p[i..j] == [p[i]] + p[i + 1..j];
      SinglesCons(p[i], p[i + 1..j]);
      assert [MemberOf(p[i])] + (Singles(p[i + 1..j]) + rest) == Singles(p[i..j]) + rest;
    }
  }

  lemma SinglesAreRead(p: string, o: GlobOptions, i: nat, j: nat)
    requires i <= j < |p| && p[j] == ']' && forall k :: i <= k < j ==> IsMember(p[k])
    ensures ReadMembers(p, o, i) == Some((Singles(p[i..j]), j + 1))
  {
    assert ReadMembers(p, o, j) == Some(([], j + 1));
    MembersAreRead(p, o, i, j);
    assert Singles(p[i..j]) + [] == Singles(p[i..j]);
  }

  lemma SetReads(n: string, mark: string, m: string, x: string, o: GlobOptions)
    requires mark in ["", "!", "^"] && forall k :: 0 <= k < |m| ==> IsMember(m[k])
    ensures var w := "[" + mark + m + "]"; var p := n + w + x;
      Read(p, o, |n|) == Cons(Bracket(mark != "", Singles(m)), Read(p, o, |n| + |w|))
  {
    var w := "[" + mark + m + "]";
    SetText(n, mark, m, x);
    SetReadsAt(n + w + x, |n|, mark, m, o);
  }

  lemma SetReadsAt(p: string, i: nat, mark: string, m: string, o: GlobOptions)
    requires mark in ["", "!", "^"] && i + 2 + |mark| + |m| <= |p|
    requires p[i] == '[' && (mark != "" ==> p[i + 1] == mark[0])
    requires var j := i + 1 + |mark|;
      p[j..j + |m|] == m && p[j + |m|] == ']' && forall k :: j <= k < j + |m| ==> IsMember(p[k])
    ensures Read(p, o, i) == Cons(Bracket(mark != "", Singles(m)), Read(p, o, i + 2 + |mark| + |m|))
  {
    var j := i + 1 + |mark|;
    SinglesAreRead(p, o, j, j + |m|);
    assert Negates(p, i) <==> mark != "";
  }

  /** A bracket with characters in it takes one of them, and a negated one any other, a slash not
      excepted. */
  lemma SetBetween(n: string, mark: string, m: string, x: string, path: string, o: GlobOptions)
    requires IsText(o, n) && IsText(o, x) && mark in ["", "!", "^"] && forall k :: 0 <= k < |m| ==> IsMember(m[k])
    ensures Match(path, n + ("[" + mark + m + "]") + x, o) == Some(Around(path, n, x) && var s := Middle(path, n, x);
      |s| == 1 && (s[0] in m <==> mark == ""))
  {
    var w := "[" + mark + m + "]";
    SetReads(n, mark, m, x, o);
    PartMatches(n + w + x, n, w, x, Bracket(mark != "", Singles(m)), path, o);
    SinglesAccept(m, 'a');
    if Around(path, n, x) && |Middle(path, n, x)| == 1 {
      SinglesAccept(m, Middle(path, n, x)[0]);
    }
  }

  lemma SetText(n: string, mark: string, m: string, x: string)
    requires |mark| <= 1
    ensures var p, i := n + ("[" + mark + m + "]") + x, |n| + 1 + |mark|;
      && p[|n|] == '[' && (mark != "" ==> p[|n| + 1] == mark[0])
      && p[i..i + |m|] == m && p[i + |m|] == ']'
      && forall k :: i <= k < i + |m| ==> p[k] == m[k - i]
  {
    var w := "[" + mark + m + "]";
    assert forall k :: 0 <= k < |w| ==> (n + w + x)[|n| + k] == w[k];
    assert forall k :: 0 <= k < |m| ==> w[1 + |mark| + k] == m[k];
  }

  lemma {:induction false} NeverCloses(p: string, o: GlobOptions, i: nat)
    requires i <= |p| && forall k :: i <= k < |p| ==> IsMember(p[k])
    ensures ReadMembers(p, o, i).None?
    decreases |p| - i
  {
    if i < |p| {
      NeverCloses(p, o, i + 1);
    }
  }

  /** A bracket that is not closed is an error. */
  lemma UnclosedIsError(n: string, m: string, path: string, o: GlobOptions)
    requires IsText(o, n) && forall k :: 0 <= k < |m| ==> IsMember(m[k])
    ensures Match(path, n + ("[" + m), o) == None
  {
    var p := n + ("[" + m);
    assert p[|n|] == '[' && forall k :: |n| < k < |p| ==> p[k] == m[k - |n| - 1];
    assert forall k :: 0 <= k < |n| ==> p[k] == n[k];
    NeverCloses(p, o, |n| + 1);
    PlainPrefixReads(p, o, 0, |n|);
    MatchIsGlobMatch(path, p, o);
  }

  function Ends(a: char, b: char): seq<Member> {
    [Single(a, IsSpecial(a)), Hyphen, Single(b, IsSpecial(b))]
  }

  lemma EndsAccept(a: char, b: char, c: char)
    ensures InMembers(Ends(a, b), c) <==> a <= c <= b
    ensures ValidMembers(Ends(a, b)) <==> a <= b
  {
    assert Ends(a, b)[3..] == [];
  }

  lemma RangeReads(n: string, a: char, b: char, x: string, o: GlobOptions)
    requires IsMember(a) && IsMember(b)
    ensures var p := n + ['[', a, '-', b, ']'] + x;
      Read(p, o, |n|) == Cons(Bracket(false, Ends(a, b)), Read(p, o, |n| + 5))
  {
    var p, i := n + ['[', a, '-', b, ']'] + x, |n|;
    assert p[i] == '[' && p[i + 1] == a && p[i + 2] == '-' && p[i + 3] == b && p[i + 4] == ']';
    assert ReadMembers(p, o, i + 4) == Some(([], i + 5));
    OneMember(p, o, i + 3);
    OneMember(p, o, i + 2);
    OneMember(p, o, i + 1);
    var ends := Ends(a, b);
    assert [ends[0]] + ([ends[1]] + ([ends[2]] + [])) == ends;
  }

  /** A range takes one character between its ends; one that runs downwards is an error. */
  lemma RangeBetween(n: string, a: char, b: char, x: string, path: string, o: GlobOptions)
    requires IsText(o, n) && IsText(o, x) && IsMember(a) && IsMember(b)
    ensures Match(path, n + ['[', a, '-', b, ']'] + x, o) ==
      if b < a then None
      else Some(Around(path, n, x) && var s := Middle(path, n, x); |s| == 1 && a <= s[0] <= b)
  {
    var w := ['[', a, '-', b, ']'];
    RangeReads(n, a, b, x, o);
    PartMatches(n + w + x, n, w, x, Bracket(false, Ends(a, b)), path, o);
    EndsAccept(a, b, a);
    if Around(path, n, x) && |Middle(path, n, x)| == 1 {
      EndsAccept(a, b, Middle(path, n, x)[0]);
    }
  }

  /** One more member before the others, or a hyphen behind them, takes its own character. */
  lemma {:induction false} OneMoreAccepts(a: Member, m: string, c: char)
    ensures InMembers([a] + Singles(m), c) <==> c == Value(a) || c in m
    ensures InMembers(Singles(m) + [Hyphen], c) <==> c == '-' || c in m
    ensures ValidMembers([a] + Singles(m)) && ValidMembers(Singles(m) + [Hyphen])
  {
    SinglesAccept(m, c);
    assert ([a] + Singles(m))[1..] == Singles(m);
    if m != "" {
      assert (Singles(m) + [Hyphen])[1..] == Singles(m[1..]) + [Hyphen];
      OneMoreAccepts(a, m[1..], c);
    }
  }

  lemma BracketText(n: string, head: string, m: string, tail: string, x: string)
    ensures var p, j := n + (head + m + tail) + x, |n| + |head|;
      j + |m| + |tail| <= |p| && p[|n|..j] == head && p[j..j + |m|] == m && p[j + |m|..j + |m| + |tail|] == tail
  {
  }

  lemma EdgeReads(p: string, i: nat, e: char, m: string, o: GlobOptions)
    requires i + |m| + 2 < |p| && p[i..i + 2] == ['[', e] && p[i + 2..i + 2 + |m|] == m
    requires p[i + 2 + |m|] == ']' && (e == '-' || e == '[') && forall k :: 0 <= k < |m| ==> IsMember(m[k])
    ensures Read(p, o, i) == Cons(Bracket(false, [if e == '-' then Hyphen else Single('[', false)] + Singles(m)),
      Read(p, o, i + 3 + |m|))
  {
    var j := i + 2;
    assert p[i] == p[i..j][0] && p[i + 1] == p[i..j][1];
    assert forall k :: j <= k < j + |m| ==> p[k] == m[k - j];
    SinglesAreRead(p, o, j, j + |m|);
  }

  lemma LastHyphenReads(p: string, i: nat, m: string, o: GlobOptions)
    requires i + |m| + 3 <= |p| && p[i] == '[' && p[i + 1..i + 1 + |m|] == m
    requires p[i + 1 + |m|..i + 3 + |m|] == "-]" && forall k :: 0 <= k < |m| ==> IsMember(m[k])
    ensures Read(p, o, i) == Cons(Bracket(false, Singles(m) + [Hyphen]), Read(p, o, i + 3 + |m|))
  {
    var j := i + 1;
    var end := p[j + |m|..j + |m| + 2];
    assert p[j + |m|] == end[0] && p[j + |m| + 1] == end[1];
    assert forall k :: j <= k < j + |m| ==> p[k] == m[k - j];
    assert ReadMembers(p, o, j + |m| + 1) == Some(([], j + |m| + 2));
    assert [Hyphen] + [] == [Hyphen];
    OneMember(p, o, j + |m|);
    MembersAreRead(p, o, j, j + |m|);
  }

  /** An opening bracket or a hyphen right behind the one that opens is a character like the
      others. */
  lemma EdgeBetween(n: string, e: char, m: string, x: string, path: string, o: GlobOptions)
    requires IsText(o, n) && IsText(o, x) && (e == '-' || e == '[') && forall k :: 0 <= k < |m| ==> IsMember(m[k])
    ensures Match(path, n + (['[', e] + m + "]") + x, o)
      == Some(Around(path, n, x) && var s := Middle(path, n, x); |s| == 1 && (s[0] == e || s[0] in m))
  {
    var w, a := ['[', e] + m + "]", if e == '-' then Hyphen else Single('[', false);
    var p := n + w + x;
    assert Read(p, o, |n|) == Cons(Bracket(false, [a] + Singles(m)), Read(p, o, |n| + |w|)) by {
      BracketText(n, ['[', e], m, "]", x);
      EdgeReads(p, |n|, e, m, o);
    }
    OneMoreMembers(a, m);
    BracketMatches(p, n, w, x, [a] + Singles(m), [e] + m, path, o);
  }

  /** A bracket whose members take these characters and no others. */
  lemma BracketMatches(p: string, n: string, w: string, x: string, members: seq<Member>, chars: string, path: string,
                       o: GlobOptions)
    requires p == n + w + x && w != "" && IsText(o, n) && IsText(o, x)
    requires Read(p, o, |n|) == Cons(Bracket(false, members), Read(p, o, |n| + |w|))
    requires ValidMembers(members) && forall c :: InMembers(members, c) <==> c in chars
    ensures Match(path, p, o)
      == Some(Around(path, n, x) && var s := Middle(path, n, x); |s| == 1 && s[0] in chars)
  {
    PartMatches(p, n, w, x, Bracket(false, members), path, o);
  }

  lemma OneMoreMembers(a: Member, m: string)
    ensures ValidMembers([a] + Singles(m)) && forall c :: InMembers([a] + Singles(m), c) <==> c in [Value(a)] + m
    ensures ValidMembers(Singles(m) + [Hyphen]) && forall c :: InMembers(Singles(m) + [Hyphen], c) <==> c in ['-'] + m
  {
    OneMoreAccepts(a, m, 'a');
    forall c
      ensures InMembers([a] + Singles(m), c) <==> c in [Value(a)] + m
      ensures InMembers(Singles(m) + [Hyphen], c) <==> c in ['-'] + m
    {
      OneMoreAccepts(a, m, c);
    }
  }

  /** So is a hyphen right before the one that closes. */
  lemma LastHyphenBetween(n: string, m: string, x: string, path: string, o: GlobOptions)
    requires IsText(o, n) && IsText(o, x) && forall k :: 0 <= k < |m| ==> IsMember(m[k])
    ensures Match(path, n + ("[" + m + "-]") + x, o)
      == Some(Around(path, n, x) && var s := Middle(path, n, x); |s| == 1 && (s[0] == '-' || s[0] in m))
  {
    var w := "[" + m + "-]";
    var p := n + w + x;
    assert Read(p, o, |n|) == Cons(Bracket(false, Singles(m) + [Hyphen]), Read(p, o, |n| + |w|)) by {
      BracketText(n, "[", m, "-]", x);
      LastHyphenReads(p, |n|, m, o);
    }
    OneMoreMembers(Hyphen, m);
    BracketMatches(p, n, w, x, Singles(m) + [Hyphen], ['-'] + m, path, o);
  }

  lemma MarkReads(p: string, i: nat, mark: char, m: string, o: GlobOptions)
    requires i + |m| + 3 < |p| && p[i..i + 3] == ['[', '[', mark] && (mark == '!' || mark == '^')
    requires p[i + 3..i + 3 + |m|] == m && p[i + 3 + |m|] == ']' && forall k :: 0 <= k < |m| ==> IsMember(m[k])
    ensures Read(p, o, i) == Cons(Bracket(false, [Single('[', false), Single('^', false)] + Singles(m)),
      Read(p, o, i + 4 + |m|))
  {
    var j := i + 3;
    assert p[i] == p[i..j][0] && p[i + 1] == p[i..j][1] && p[i + 2] == p[i..j][2];
    assert forall k :: j <= k < j + |m| ==> p[k] == m[k - j];
    SinglesAreRead(p, o, j, j + |m|);
  }

  lemma TwoMoreMembers(m: string)
    ensures var members := [Single('[', false), Single('^', false)] + Singles(m);
      ValidMembers(members) && forall c :: InMembers(members, c) <==> c in "[^" + m
  {
    var members, rest := [Single('[', false), Single('^', false)] + Singles(m), [Single('^', false)] + Singles(m);
    assert members[1..] == rest;
    OneMoreMembers(Single('^', false), m);
    forall c ensures InMembers(members, c) <==> c in "[^" + m {
      assert InMembers(rest, c) <==> c in ['^'] + m;
    }
  }

  /** An opening bracket inside brackets turns an exclamation mark behind it into a caret. */
  lemma MarkInside(n: string, mark: char, m: string, x: string, path: string, o: GlobOptions)
    requires IsText(o, n) && IsText(o, x) && (mark == '!' || mark == '^') && forall k :: 0 <= k < |m| ==> IsMember(m[k])
    ensures Match(path, n + (['[', '[', mark] + m + "]") + x, o)
      == Some(Around(path, n, x) && var s := Middle(path, n, x); |s| == 1 && (s[0] == '[' || s[0] == '^' || s[0] in m))
  {
    var w := ['[', '[', mark] + m + "]";
    var p := n + w + x;
    var members := [Single('[', false), Single('^', false)] + Singles(m);
    assert Read(p, o, |n|) == Cons(Bracket(false, members), Read(p, o, |n| + |w|)) by {
      BracketText(n, ['[', '[', mark], m, "]", x);
      MarkReads(p, |n|, mark, m, o);
    }
    TwoMoreMembers(m);
    BracketMatches(p, n, w, x, members, "[^" + m, path, o);
  }

  lemma OneAccepts(c: char, s: string)
    ensures |s| == 1 && InMembers([MemberOf(c)], s[0]) <==> s == [c]
    ensures ValidMembers([MemberOf(c)])
  {
    assert [MemberOf(c)][1..] == [];
  }

  /** Inside brackets too an escaped character stands for itself. */
  lemma EscapeInside(n: string, c: char, x: string, path: string, o: GlobOptions)
    requires IsText(o, n) && IsText(o, x) && !o.noescape
    ensures Match(path, n + ['[', '\\', c, ']'] + x, o)
      == Some(Around(path, n, x) && Middle(path, n, x) == [c])
  {
    var w := ['[', '\\', c, ']'];
    var p, i := n + w + x, |n|;
    assert p[i] == '[' && p[i + 1] == '\\' && p[i + 2] == c && p[i + 3] == ']';
    assert ReadMembers(p, o, i + 3) == Some(([], i + 4));
    assert [MemberOf(c)] + [] == [MemberOf(c)];
    assert ReadMembers(p, o, i + 1) == Some(([MemberOf(c)], i + 4));
    OneAccepts(c, [c]);
    PartMatches(p, n, w, x, Bracket(false, [MemberOf(c)]), path, o);
    if Around(path, n, x) {
      OneAccepts(c, Middle(path, n, x));
    }
  }

  /** Between two members a hyphen spans a range even when it is escaped. */
  lemma EscapedHyphenSpans(n: string, a: char, b: char, x: string, path: string, o: GlobOptions)
    requires IsText(o, n) && IsText(o, x) && IsMember(a) && IsMember(b) && !o.noescape
    ensures Match(path, n + ['[', a, '\\', '-', b, ']'] + x, o) == Match(path, n + ['[', a, '-', b, ']'] + x, o)
  {
    var w := ['[', a, '\\', '-', b, ']'];
    var p, i := n + w + x, |n|;
    assert p[i] == '[' && p[i + 1] == a && p[i + 2] == '\\' && p[i + 3] == '-' && p[i + 4] == b && p[i + 5] == ']';
    assert ReadMembers(p, o, i + 5) == Some(([], i + 6));
    OneMember(p, o, i + 4);
    OneMember(p, o, i + 1);
    var ends := Ends(a, b);
    assert [ends[0]] + ([ends[1]] + ([ends[2]] + [])) == ends;
    PartMatches(p, n, w, x, Bracket(false, ends), path, o);
    RangeReads(n, a, b, x, o);
    PartMatches(n + ['[', a, '-', b, ']'] + x, n, ['[', a, '-', b, ']'], x, Bracket(false, ends), path, o);
  }

  // ---------------------------------------------------------------------------
  // Behind plain components

  function Shifted(r: Option<(seq<Member>, nat)>, n: nat): Option<(seq<Member>, nat)> {
    if r.None? then None else Some((r.value.0, r.value.1 + n))
  }

  predicate IsTail(p: string, n: nat, q: string) {
    n <= |p| && |p| == n + |q| && forall k :: 0 <= k < |q| ==> p[n + k] == q[k]
  }

  lemma {:induction false} MembersBehind(p: string, n: nat, q: string, o: GlobOptions, i: nat)
    requires IsTail(p, n, q) && i <= |q|
    ensures ReadMembers(p, o, n + i) == Shifted(ReadMembers(q, o, i), n)
    decreases |q| - i
  {
    if i < |q| && (q[i] != ']' || Escapes(q, o, i)) {
      assert p[n + i] == q[i];
      MembersBehind(p, n, q, o, i + if Escapes(q, o, i) || (q[i] == '[' && Negates(q, i)) then 2 else 1);
    }
  }

  /** A place in the pattern behind a component is like the same place in the pattern alone. */
  lemma SamePlace(p: string, n: nat, q: string, o: GlobOptions, i: nat)
    requires IsTail(p, n, q) && i < |q| && (n == 0 || p[n - 1] == '/')
    ensures p[n + i] == q[i] && Escapes(p, o, n + i) == Escapes(q, o, i)
    ensures Leads(p, n + i) == Leads(q, i) && Negates(p, n + i) == Negates(q, i)
    ensures IsDoubleStar(p, n + i) == IsDoubleStar(q, i) && IsProperGlobstar(p, n + i) == IsProperGlobstar(q, i)
    ensures i + 1 < |q| ==> p[n + i + 1] == q[i + 1]
  {
    assert i > 0 ==> p[n + (i - 1)] == q[i - 1];
    assert i + 1 < |q| ==> p[n + (i + 1)] == q[i + 1];
    assert i + 2 < |q| ==> p[n + (i + 2)] == q[i + 2];
  }

  lemma {:induction false} PatternBehind(p: string, n: nat, q: string, o: GlobOptions, i: nat)
    requires IsTail(p, n, q) && i <= |q| && (n == 0 || p[n - 1] == '/')
    ensures Read(p, o, n + i) == Read(q, o, i)
    decreases |q| - i
  {
    if i < |q| {
      SamePlace(p, n, q, o, i);
      if q[i] == '[' && !Escapes(q, o, i) {
        BracketBehind(p, n, q, o, i);
        var r := ReadMembers(q, o, if Negates(q, i) then i + 2 else i + 1);
        if r.Some? {
          PatternBehind(p, n, q, o, r.value.1);
        }
      } else {
        PatternBehind(p, n, q, o, TurnAt(q, o, i, false).next);
      }
    }
  }

  lemma BracketBehind(p: string, n: nat, q: string, o: GlobOptions, i: nat)
    requires IsTail(p, n, q) && i < |q| && q[i] == '[' && !Escapes(q, o, i) && (n == 0 || p[n - 1] == '/')
    ensures var r := ReadMembers(q, o, if Negates(q, i) then i + 2 else i + 1);
      Read(p, o, n + i) == if r.None? then None
        else Cons(Bracket(Negates(q, i), r.value.0), Read(p, o, n + r.value.1))
  {
    SamePlace(p, n, q, o, i);
    MembersBehind(p, n, q, o, if Negates(q, i) then i + 2 else i + 1);
  }

  /** Plain components in front of a pattern are cut off: a path matches when it begins with them
      and the rest matches the rest, with every wildcard as it was. */
  lemma ComponentsCutOff(d: string, q: string, path: string, o: GlobOptions)
    requires IsText(o, d)
    ensures Match(path, d + "/" + q, o) ==
      if Match("", q, o).None? then None
      else Some(d + "/" <= path && Match(path[|d| + 1..], q, o) == Some(true))
  {
    var front := d + "/";
    var p := front + q;
    var n := |front|;
    assert IsText(o, front) && IsTail(p, n, q);
    PatternBehind(p, n, q, o, 0);
    PlainPrefixReads(p, o, 0, n);
    assert p[0..n] == front;
    MatchIsGlobMatch(path, p, o);
    MatchIsGlobMatch("", q, o);
    if Read(q, o, 0).Some? {
      var tokens := Read(q, o, 0).value;
      assert Read(p, o, 0).value == Chars(front) + tokens;
      SameBrackets(front, tokens);
      CharsMatch(front, tokens, path, o.dot);
      if front <= path {
        MatchIsGlobMatch(path[n..], q, o);
      }
    }
  }

  lemma SameBrackets(front: string, tokens: seq<Token>)
    ensures ValidBrackets(Chars(front) + tokens) <==> ValidBrackets(tokens)
  {
    var all := Chars(front) + tokens;
    assert forall k :: 0 <= k < |tokens| ==> all[|front| + k] == tokens[k];
    assert forall k :: 0 <= k < |front| ==> all[k] == Char(front[k]);
  }

  /** In particular the component and the slash change nothing. */
  lemma ComponentCutsOff(d: string, q: string, path: string, o: GlobOptions)
    requires IsText(o, d)
    ensures Match(d + "/" + path, d + "/" + q, o) == Match(path, q, o)
  {
    ComponentsCutOff(d, q, d + "/" + path, o);
    assert (d + "/" + path)[|d| + 1..] == path;
    MatchIsGlobMatch("", q, o);
    MatchIsGlobMatch(path, q, o);
  }
}
