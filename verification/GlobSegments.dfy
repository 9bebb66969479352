/** Globs matched segment by segment. */
module GlobSegments {
  // The library's matcher and this one agree on every path exactly when no bracket of the
  // pattern accepts a slash.

  import opened Options
  import opened Regex
  import opened Text
  import opened Glob
  import opened GlobMeaning

  /** A pattern component: ordinary tokens, a `**` with more to come, or a final `**`. */
  datatype Component = Plain(tokens: seq<Token>) | Deep | DeepEnd

  /** Globstars stand at the start of a component, and a final one stands last. */
  predicate WellPlaced(tokens: seq<Token>) {
    forall k :: 0 <= k < |tokens| && (tokens[k].Globstar? || tokens[k].GlobstarEnd?) ==>
      && (k > 0 ==> tokens[k - 1] == Char('/') || tokens[k - 1].Globstar?)
      && (tokens[k].GlobstarEnd? ==> k == |tokens| - 1)
  }

  /** The components of a pattern, cut at its slashes. */
  function Components(tokens: seq<Token>): (r: seq<Component>)
    ensures r != [] && !r[|r| - 1].Deep?
  {
    if tokens == [] then [Plain([])]
    else
      var t, r := tokens[0], Components(tokens[1..]);
      if t == Char('/') then [Plain([])] + r
      else if t.Globstar? then [Deep] + r
      else if t.GlobstarEnd? then [DeepEnd]
      else if r[0].Plain? then [Plain([t] + r[0].tokens)] + r[1..]
      else [Plain([t])] + r
  }

  /** A segment `**` passes through on its way. */
  predicate IsPassed(segment: string, dot: bool) {
    if dot then NoLineTerminator(segment) else IsOpenSegment(segment)
  }

  /** The components match the segments one by one; `**` passes any number of them. */
  ghost predicate SegmentMatch(cs: seq<Component>, segments: seq<string>, dot: bool)
    decreases |cs|
  {
    if cs == [] then segments == []
    else
      match cs[0]
      case Plain(tokens) =>
        segments != [] && GlobMatch(tokens, segments[0], dot) && SegmentMatch(cs[1..], segments[1..], dot)
      case Deep =>
        exists k :: 0 <= k <= |segments| && (forall i :: 0 <= i < k ==> IsPassed(segments[i], dot))
          && SegmentMatch(cs[1..], segments[k..], dot)
      case DeepEnd => segments != [] && Takes(GlobstarEnd, Join(segments, '/'), dot)
  }

  /** No bracket accepts a slash. */
  predicate NoSlashBracket(tokens: seq<Token>) {
    forall k :: 0 <= k < |tokens| && tokens[k].Bracket? ==> InMembers(tokens[k].members, '/') == tokens[k].negated
  }

  ghost predicate AgreesOn(tokens: seq<Token>, path: string, dot: bool) {
    GlobMatch(tokens, path, dot) <==> SegmentMatch(Components(tokens), Split(path, '/'), dot)
  }

  // ---------------------------------------------------------------------------
  // Splitting a path

  /** Dropping characters of the first segment. */
  lemma {:induction false} SplitDrop(s: string, k: nat)
    requires k <= |s| && '/' !in s[..k]
    ensures var r := Split(s, '/');
      && k <= |r[0]| && s[..k] == r[0][..k]
      && Split(s[k..], '/') == [r[0][k..]] + r[1..]
  {
    if k == 0 {
      assert s[0..] == s && Split(s, '/')[0][0..] == Split(s, '/')[0];
    } else {
      assert s[0] == s[..k][0] && s[1..][..k - 1] == s[..k][1..];
      SplitDrop(s[1..], k - 1);
      assert s[1..][k - 1..] == s[k..];
      assert Split(s, '/')[0] == [s[0]] + Split(s[1..], '/')[0];
      assert Split(s, '/')[0][k..] == Split(s[1..], '/')[0][k - 1..];
    }
  }

  lemma {:induction false} FirstIsPrefix(s: string, k: nat)
    requires k <= |Split(s, '/')[0]|
    ensures k <= |s| && '/' !in s[..k]
  {
    JoinOfSplit(s, '/');
    PiecesHoldNone(s, '/');
    var r := Split(s, '/');
    assert s == if |r| == 1 then r[0] else r[0] + ['/'] + Join(r[1..], '/');
    assert s[..k] == r[0][..k];
  }

  lemma {:induction false} JoinConcat(a: seq<string>, b: seq<string>)
    requires a != [] && b != []
    ensures Join(a + b, '/') == Join(a, '/') + "/" + Join(b, '/')
  {
    if |a| == 1 {
      assert (a + b)[1..] == b;
    } else {
      assert (a + b)[1..] == a[1..] + b;
      JoinConcat(a[1..], b);
    }
  }

  lemma CutAt(path: string, a: string, b: string)
    requires path == a + "/" + b
    ensures path[..|a| + 1] == a + "/" && path[..|a|] == a && path[|a| + 1..] == b
  {
  }

  /** A cut between two segments. */
  lemma CutBetween(path: string, k: nat)
    requires 0 < k < |Split(path, '/')|
    ensures var r := Split(path, '/'); var n := |Join(r[..k], '/')| + 1;
      && n <= |path| && path[..n] == Join(r[..k], '/') + "/"
      && Split(path[..n - 1], '/') == r[..k] && Split(path[n..], '/') == r[k..]
  {
    var r := Split(path, '/');
    var head, tail := r[..k], r[k..];
    PiecesHoldNone(path, '/');
    assert r == head + tail;
    JoinOfSplit(path, '/');
    JoinConcat(head, tail);
    CutAt(path, Join(head, '/'), Join(tail, '/'));
    SplitOfJoin(head, '/');
    SplitOfJoin(tail, '/');
  }

  // ---------------------------------------------------------------------------
  // The two matchers agree

  lemma {:induction false} NoSegments(cs: seq<Component>, dot: bool)
    requires cs != [] && !cs[|cs| - 1].Deep?
    ensures !SegmentMatch(cs, [], dot)
  {
    if cs[0].Deep? {
      NoSegments(cs[1..], dot);
    }
  }

  lemma SlashAgrees(rest: seq<Token>, path: string, dot: bool)
    requires path != "" && path[0] == '/' ==> AgreesOn(rest, path[1..], dot)
    ensures AgreesOn([Char('/')] + rest, path, dot)
  {
    var tokens := [Char('/')] + rest;
    assert tokens[1..] == rest;
    var cs := Components(rest);
    assert ([Plain([])] + cs)[1..] == cs;
    if GlobMatch(tokens, path, dot) {
      var k :| 0 <= k <= |path| && Takes(Char('/'), path[..k], dot) && GlobMatch(rest, path[k..], dot);
      assert k == 1 && path[0] == path[..1][0];
    }
    if path != "" && path[0] == '/' {
      assert path == "" + "/" + path[1..];
      SplitConcat("", path[1..], '/');
      assert Split(path, '/') == [""] + Split(path[1..], '/');
      assert Split(path, '/')[1..] == Split(path[1..], '/');
      assert path[..1] == "/";
    } else {
      NoSegments(cs, dot);
    }
  }

  lemma PassedAreWhole(segments: seq<string>, dot: bool)
    requires segments != [] && forall i :: 0 <= i < |segments| ==> '/' !in segments[i]
    ensures AreWholeSegments(Join(segments, '/') + "/", dot) <==>
      forall i :: 0 <= i < |segments| ==> IsPassed(segments[i], dot)
  {
    var s := Join(segments, '/') + "/";
    assert s[..|s| - 1] == Join(segments, '/');
    SplitOfJoin(segments, '/');
    if dot {
      JoinHasNoLineTerminator(segments);
    }
  }

  lemma {:induction false} JoinHasNoLineTerminator(segments: seq<string>)
    ensures NoLineTerminator(Join(segments, '/')) <==>
      forall i :: 0 <= i < |segments| ==> NoLineTerminator(segments[i])
  {
    if |segments| <= 1 {
    } else {
      var a, b := segments[0], Join(segments[1..], '/');
      JoinHasNoLineTerminator(segments[1..]);
      var s := a + ['/'] + b;
      assert forall i :: 1 <= i < |segments| ==> segments[i] == segments[1..][i - 1];
      assert forall i :: 0 <= i < |a| ==> s[i] == a[i];
      assert forall i :: 0 <= i < |b| ==> s[|a| + 1 + i] == b[i];
      assert forall i :: 0 <= i < |s| ==> s[i] == if i < |a| then a[i] else if i == |a| then '/' else b[i - |a| - 1];
    }
  }

  lemma GlobstarAgrees(rest: seq<Token>, path: string, dot: bool)
    requires forall k :: 0 <= k <= |path| ==> AgreesOn(rest, path[k..], dot)
    ensures AgreesOn([Globstar] + rest, path, dot)
  {
    var tokens := [Globstar] + rest;
    assert tokens[1..] == rest;
    if GlobMatch(tokens, path, dot) {
      var n :| 0 <= n <= |path| && Takes(Globstar, path[..n], dot) && GlobMatch(rest, path[n..], dot);
      assert AgreesOn(rest, path[n..], dot);
      var k := GlobstarToDeep(path, n, dot);
      DeepMatches(Components(rest), Split(path, '/'), k, dot);
    }
    if SegmentMatch([Deep] + Components(rest), Split(path, '/'), dot) {
      var k := DeepSplits(Components(rest), Split(path, '/'), dot);
      var n := DeepToGlobstar(path, k, dot);
      assert AgreesOn(rest, path[n..], dot);
    }
  }

  lemma DeepMatches(cs: seq<Component>, segments: seq<string>, k: nat, dot: bool)
    requires k <= |segments| && (forall i :: 0 <= i < k ==> IsPassed(segments[i], dot))
    requires SegmentMatch(cs, segments[k..], dot)
    ensures SegmentMatch([Deep] + cs, segments, dot)
  {
    assert ([Deep] + cs)[1..] == cs;
  }

  lemma DeepSplits(cs: seq<Component>, segments: seq<string>, dot: bool) returns (k: nat)
    requires cs != [] && !cs[|cs| - 1].Deep? && SegmentMatch([Deep] + cs, segments, dot)
    ensures k < |segments| && (forall i :: 0 <= i < k ==> IsPassed(segments[i], dot))
    ensures SegmentMatch(cs, segments[k..], dot)
  {
    assert ([Deep] + cs)[1..] == cs;
    k :| 0 <= k <= |segments| && (forall i :: 0 <= i < k ==> IsPassed(segments[i], dot))
      && SegmentMatch(cs, segments[k..], dot);
    NoSegments(cs, dot);
  }

  lemma GlobstarToDeep(path: string, n: nat, dot: bool) returns (k: nat)
    requires n <= |path| && AreWholeSegments(path[..n], dot)
    ensures var r := Split(path, '/');
      k <= |r| && r[k..] == Split(path[n..], '/') && forall i :: 0 <= i < k ==> IsPassed(r[i], dot)
  {
    var r := Split(path, '/');
    if n == 0 {
      k := 0;
      assert path[0..] == path && r[0..] == r;
    } else {
      var head := path[..n - 1];
      var a := Split(head, '/');
      k := |a|;
      assert path[..n][..n - 1] == head && path[..n][n - 1] == path[n - 1] == '/';
      assert path == head + ['/'] + path[n..];
      SplitConcat(head, path[n..], '/');
      JoinOfSplit(head, '/');
      assert path[..n] == Join(a, '/') + "/";
      PiecesHoldNone(head, '/');
      PassedAreWhole(a, dot);
    }
  }

  lemma DeepToGlobstar(path: string, k: nat, dot: bool) returns (n: nat)
    requires var r := Split(path, '/'); k < |r| && forall i :: 0 <= i < k ==> IsPassed(r[i], dot)
    ensures n <= |path| && AreWholeSegments(path[..n], dot) && Split(path[n..], '/') == Split(path, '/')[k..]
  {
    var r := Split(path, '/');
    if k == 0 {
      n := 0;
      assert path[0..] == path && r[0..] == r;
    } else {
      CutBetween(path, k);
      n := |Join(r[..k], '/')| + 1;
      PiecesHoldNone(path, '/');
      PassedAreWhole(r[..k], dot);
    }
  }

  /** A token that stays inside one segment. */
  predicate StaysInSegment(t: Token) {
    match t
    case Char(c) => c != '/'
    case Bracket(negated, members) => InMembers(members, '/') == negated
    case Globstar => false
    case GlobstarEnd => false
    case _ => true
  }

  lemma PlainJoins(t: Token, cs: seq<Component>, segments: seq<string>, k: nat, dot: bool)
    requires cs != [] && cs[0].Plain? && segments != [] && k <= |segments[0]| && Takes(t, segments[0][..k], dot)
    requires SegmentMatch(cs, [segments[0][k..]] + segments[1..], dot)
    ensures SegmentMatch([Plain([t] + cs[0].tokens)] + cs[1..], segments, dot)
  {
    var u, more := cs[0].tokens, cs[1..];
    assert ([Plain([t] + u)] + more)[1..] == more && ([t] + u)[1..] == u;
    assert ([segments[0][k..]] + segments[1..])[1..] == segments[1..];
    assert GlobMatch([t] + u, segments[0], dot);
  }

  lemma PlainSplits(t: Token, cs: seq<Component>, segments: seq<string>, dot: bool) returns (k: nat)
    requires cs != [] && cs[0].Plain? && SegmentMatch([Plain([t] + cs[0].tokens)] + cs[1..], segments, dot)
    ensures segments != [] && k <= |segments[0]| && Takes(t, segments[0][..k], dot)
    ensures SegmentMatch(cs, [segments[0][k..]] + segments[1..], dot)
  {
    var u, more := cs[0].tokens, cs[1..];
    assert ([Plain([t] + u)] + more)[1..] == more && ([t] + u)[1..] == u;
    var s := segments[0];
    k :| 0 <= k <= |s| && Takes(t, s[..k], dot) && GlobMatch(u, s[k..], dot);
    assert ([s[k..]] + segments[1..])[1..] == segments[1..];
  }

  lemma SegmentTokenAgrees(t: Token, rest: seq<Token>, path: string, dot: bool)
    requires StaysInSegment(t) && Components(rest)[0].Plain?
    requires forall k :: 0 <= k <= |path| ==> AgreesOn(rest, path[k..], dot)
    ensures AgreesOn([t] + rest, path, dot)
  {
    var tokens, r, cs := [t] + rest, Split(path, '/'), Components(rest);
    assert tokens[1..] == rest;
    assert Components(tokens) == [Plain([t] + cs[0].tokens)] + cs[1..];
    if GlobMatch(tokens, path, dot) {
      var k :| 0 <= k <= |path| && Takes(t, path[..k], dot) && GlobMatch(rest, path[k..], dot);
      assert AgreesOn(rest, path[k..], dot);
      SplitDrop(path, k);
      PlainJoins(t, cs, r, k, dot);
    }
    if SegmentMatch(Components(tokens), r, dot) {
      var k := PlainSplits(t, cs, r, dot);
      FirstIsPrefix(path, k);
      SplitDrop(path, k);
      assert AgreesOn(rest, path[k..], dot);
    }
  }

  lemma {:induction false} FirstIsPlain(tokens: seq<Token>)
    requires tokens == [] || !(tokens[0].Globstar? || tokens[0].GlobstarEnd?)
    ensures Components(tokens)[0].Plain?
  {
  }

  /** With no bracket that accepts a slash, the two matchers agree on every path. */
  lemma {:induction false} SegmentsAgree(tokens: seq<Token>, path: string, dot: bool)
    requires WellPlaced(tokens) && NoSlashBracket(tokens)
    ensures AgreesOn(tokens, path, dot)
    decreases |tokens|
  {
    if tokens == [] {
      JoinOfSplit(path, '/');
      assert Split("", '/') == [""];
      var r := Split(path, '/');
      assert [Plain([])][1..] == [];
    } else {
      var t, rest := tokens[0], tokens[1..];
      assert tokens == [t] + rest;
      assert forall k :: 0 <= k < |rest| ==> rest[k] == tokens[k + 1];
      forall k | 0 <= k <= |path| ensures AgreesOn(rest, path[k..], dot) {
        SegmentsAgree(rest, path[k..], dot);
      }
      if t == Char('/') {
        SlashAgrees(rest, path, dot);
      } else if t.Globstar? {
        GlobstarAgrees(rest, path, dot);
      } else if t.GlobstarEnd? {
        assert tokens[0].GlobstarEnd? && tokens == [GlobstarEnd];
        GlobstarEndAgrees(path, dot);
      } else {
        FirstIsPlain(rest);
        SegmentTokenAgrees(t, rest, path, dot);
      }
    }
  }

  lemma GlobstarEndAgrees(path: string, dot: bool)
    ensures AgreesOn([GlobstarEnd], path, dot)
  {
    JoinOfSplit(path, '/');
    var tokens := [GlobstarEnd];
    if GlobMatch(tokens, path, dot) {
      var k :| 0 <= k <= |path| && Takes(GlobstarEnd, path[..k], dot) && GlobMatch(tokens[1..], path[k..], dot);
      assert path[..k] == path;
    }
    if Takes(GlobstarEnd, path, dot) {
      assert path[..|path|] == path && GlobMatch(tokens[1..], path[|path|..], dot);
    }
  }

  // ---------------------------------------------------------------------------
  // A bracket that accepts a slash always shows

  predicate IsSlashBracket(t: Token) {
    t.Bracket? && InMembers(t.members, '/') != t.negated
  }

  /** Every bracket accepts some character. */
  ghost predicate Inhabited(tokens: seq<Token>) {
    forall k :: 0 <= k < |tokens| && tokens[k].Bracket? ==> exists c :: Takes(tokens[k], [c], false)
  }

  /** A least text for a token, a slash wherever a bracket accepts one. */
  ghost function Least(t: Token): string
    requires t.Bracket? ==> exists c :: Takes(t, [c], false)
  {
    match t
    case Char(c) => [c]
    case Bracket(_, _) => if IsSlashBracket(t) then "/" else var c :| Takes(t, [c], false); [c]
    case One(_) => "a"
    case _ => ""
  }

  ghost function Witness(tokens: seq<Token>): string
    requires Inhabited(tokens)
  {
    if tokens == [] then "" else Least(tokens[0]) + Witness(tokens[1..])
  }

  lemma {:induction false} WitnessMatches(tokens: seq<Token>, dot: bool)
    requires Inhabited(tokens)
    ensures GlobMatch(tokens, Witness(tokens), dot)
  {
    if tokens == [] {
    } else {
      var t, w := Least(tokens[0]), Witness(tokens);
      WitnessMatches(tokens[1..], dot);
      assert w[..|t|] == t && w[|t|..] == Witness(tokens[1..]);
      assert Takes(tokens[0], t, dot);
    }
  }

  /** The characters of a text that are not slashes. */
  function Solid(s: string): nat {
    if s == "" then 0 else (if s[0] == '/' then 0 else 1) + Solid(s[1..])
  }

  /** How many characters other than slashes the tokens need when none may take a slash. */
  function Needs(tokens: seq<Token>): nat {
    if tokens == [] then 0
    else (if tokens[0] != Char('/') && (tokens[0].Char? || tokens[0].Bracket? || tokens[0].One?) then 1 else 0)
         + Needs(tokens[1..])
  }

  lemma {:induction false} SolidConcat(a: string, b: string)
    ensures Solid(a + b) == Solid(a) + Solid(b)
  {
    if a == "" {
      assert a + b == b;
    } else {
      assert (a + b)[1..] == a[1..] + b;
      SolidConcat(a[1..], b);
    }
  }

  lemma {:induction false} WitnessIsLight(tokens: seq<Token>)
    requires Inhabited(tokens)
    ensures Solid(Witness(tokens)) <= Needs(tokens)
    ensures (exists k :: 0 <= k < |tokens| && IsSlashBracket(tokens[k])) ==> Solid(Witness(tokens)) < Needs(tokens)
  {
    if tokens == [] {
    } else {
      var t := Least(tokens[0]);
      WitnessIsLight(tokens[1..]);
      SolidConcat(t, Witness(tokens[1..]));
      assert t != "" ==> t[1..] == "";
      if k :| 0 <= k < |tokens| && IsSlashBracket(tokens[k]) {
        assert k > 0 ==> tokens[1..][k - 1] == tokens[k];
      }
    }
  }

  /** A segment is as long as its tokens need. */
  lemma {:induction false} SegmentIsLong(tokens: seq<Token>, s: string, dot: bool)
    requires GlobMatch(tokens, s, dot) && '/' !in s
    ensures Needs(tokens) <= |s|
  {
    if tokens == [] {
    } else {
      var k :| 0 <= k <= |s| && Takes(tokens[0], s[..k], dot) && GlobMatch(tokens[1..], s[k..], dot);
      SegmentIsLong(tokens[1..], s[k..], dot);
    }
  }

  function NeedsOf(cs: seq<Component>): nat {
    if cs == [] then 0 else (if cs[0].Plain? then Needs(cs[0].tokens) else 0) + NeedsOf(cs[1..])
  }

  function Total(segments: seq<string>): nat {
    if segments == [] then 0 else |segments[0]| + Total(segments[1..])
  }

  lemma {:induction false} TotalDrop(segments: seq<string>, k: nat)
    requires k <= |segments|
    ensures Total(segments[k..]) <= Total(segments)
  {
    if k == 0 {
      assert segments[0..] == segments;
    } else {
      TotalDrop(segments[1..], k - 1);
      assert segments[1..][k - 1..] == segments[k..];
    }
  }

  /** A final `**` stands nowhere but last. */
  predicate EndsDeep(cs: seq<Component>) {
    forall k :: 0 <= k < |cs| && cs[k].DeepEnd? ==> k == |cs| - 1
  }

  lemma {:induction false} MatchIsLong(cs: seq<Component>, segments: seq<string>, dot: bool)
    requires SegmentMatch(cs, segments, dot)
    requires forall k :: 0 <= k < |segments| ==> '/' !in segments[k]
    requires EndsDeep(cs)
    ensures NeedsOf(cs) <= Total(segments)
    decreases |cs|
  {
    if cs == [] {
    } else {
      match cs[0] {
        case Plain(tokens) =>
          SegmentIsLong(tokens, segments[0], dot);
          MatchIsLong(cs[1..], segments[1..], dot);
        case Deep =>
          var k :| 0 <= k <= |segments| && (forall i :: 0 <= i < k ==> IsPassed(segments[i], dot))
            && SegmentMatch(cs[1..], segments[k..], dot);
          MatchIsLong(cs[1..], segments[k..], dot);
          TotalDrop(segments, k);
        case DeepEnd =>
          assert cs[1..] == [];
      }
    }
  }

  lemma {:induction false} SolidIsTotal(s: string)
    ensures Solid(s) == Total(Split(s, '/'))
  {
    if s == "" {
      assert [""][1..] == [];
    } else {
      SolidIsTotal(s[1..]);
      var r := Split(s[1..], '/');
      if s[0] == '/' {
        assert ([""] + r)[1..] == r;
      } else {
        assert ([[s[0]] + r[0]] + r[1..])[1..] == r[1..];
      }
    }
  }

  lemma NeedsOfCons(c: Component, cs: seq<Component>)
    ensures NeedsOf([c] + cs) == (if c.Plain? then Needs(c.tokens) else 0) + NeedsOf(cs)
  {
    assert ([c] + cs)[1..] == cs;
  }

  lemma NeedsCons(t: Token, u: seq<Token>)
    requires t != Char('/')
    ensures Needs([t] + u) == (if t.Char? || t.Bracket? || t.One? then 1 else 0) + Needs(u)
  {
    assert ([t] + u)[1..] == u;
  }

  lemma {:induction false} ComponentsNeed(tokens: seq<Token>)
    requires WellPlaced(tokens)
    ensures NeedsOf(Components(tokens)) == Needs(tokens)
  {
    if tokens == [] {
      NeedsOfCons(Plain([]), []);
      assert [Plain([])] + [] == [Plain([])];
    } else {
      var t, rest := tokens[0], tokens[1..];
      assert tokens == [t] + rest && forall k :: 0 <= k < |rest| ==> rest[k] == tokens[k + 1];
      ComponentsNeed(rest);
      var cs := Components(rest);
      if t == Char('/') {
        NeedsOfCons(Plain([]), cs);
      } else if t.Globstar? {
        NeedsOfCons(Deep, cs);
      } else if t.GlobstarEnd? {
        assert tokens[0].GlobstarEnd? && rest == [];
        NeedsOfCons(DeepEnd, []);
        assert [DeepEnd] + [] == [DeepEnd];
      } else {
        FirstIsPlain(rest);
        assert cs == [cs[0]] + cs[1..];
        NeedsOfCons(cs[0], cs[1..]);
        NeedsCons(t, cs[0].tokens);
        NeedsOfCons(Plain([t] + cs[0].tokens), cs[1..]);
      }
    }
  }

  lemma EndsDeepCons(c: Component, cs: seq<Component>)
    requires EndsDeep(cs) && !c.DeepEnd?
    ensures EndsDeep([c] + cs)
  {
    assert forall k :: 1 <= k < |[c] + cs| ==> ([c] + cs)[k] == cs[k - 1];
  }

  lemma {:induction false} DeepEndIsLast(tokens: seq<Token>)
    ensures EndsDeep(Components(tokens))
  {
    if tokens != [] {
      DeepEndIsLast(tokens[1..]);
      var t, r := tokens[0], Components(tokens[1..]);
      if t.GlobstarEnd? {
        assert Components(tokens) == [DeepEnd];
      } else if t == Char('/') || t.Globstar? || !r[0].Plain? {
        EndsDeepCons(Components(tokens)[0], r);
      } else {
        assert forall k :: 0 <= k < |r[1..]| ==> r[1..][k] == r[k + 1];
        EndsDeepCons(Components(tokens)[0], r[1..]);
      }
    }
  }

  lemma InhabitedCons(t: Token, rest: seq<Token>)
    requires Inhabited(rest) && (t.Bracket? ==> exists c :: Takes(t, [c], false))
    ensures Inhabited([t] + rest)
  {
    var tokens := [t] + rest;
    forall k | 0 <= k < |tokens| && tokens[k].Bracket? ensures exists c :: Takes(tokens[k], [c], false) {
      assert k > 0 ==> tokens[k] == rest[k - 1];
    }
  }

  /** A bracket that accepts nothing keeps the whole pattern from matching. */
  lemma {:induction false} MatchedIsInhabited(tokens: seq<Token>, s: string, dot: bool)
    requires GlobMatch(tokens, s, dot)
    ensures Inhabited(tokens)
  {
    if tokens != [] {
      var t, rest := tokens[0], tokens[1..];
      var k :| 0 <= k <= |s| && Takes(t, s[..k], dot) && GlobMatch(rest, s[k..], dot);
      MatchedIsInhabited(rest, s[k..], dot);
      assert t.Bracket? ==> s[..k] == [s[0]] && Takes(t, [s[0]], false);
      InhabitedCons(t, rest);
      assert [t] + rest == tokens;
    }
  }

  /** The same for the matcher by segments. */
  lemma {:induction false} SegmentMatchedIsInhabited(tokens: seq<Token>, segments: seq<string>, dot: bool)
    requires WellPlaced(tokens) && SegmentMatch(Components(tokens), segments, dot)
    ensures Inhabited(tokens)
    decreases |tokens|
  {
    if tokens != [] {
      var t, rest := tokens[0], tokens[1..];
      var cs := Components(rest);
      assert tokens == [t] + rest && forall k :: 0 <= k < |rest| ==> rest[k] == tokens[k + 1];
      if t == Char('/') {
        assert ([Plain([])] + cs)[1..] == cs;
        SegmentMatchedIsInhabited(rest, segments[1..], dot);
      } else if t.Globstar? {
        var k := DeepSplits(cs, segments, dot);
        SegmentMatchedIsInhabited(rest, segments[k..], dot);
      } else if t.GlobstarEnd? {
        assert tokens[0].GlobstarEnd? && rest == [];
      } else {
        FirstIsPlain(rest);
        var k := PlainSplits(t, cs, segments, dot);
        assert t.Bracket? ==> Takes(t, [segments[0][0]], false) by {
          assert t.Bracket? ==> segments[0][..k] == [segments[0][0]];
        }
        SegmentMatchedIsInhabited(rest, [segments[0][k..]] + segments[1..], dot);
      }
      InhabitedCons(t, rest);
    }
  }

  /** Matching is segment by segment, on every path, exactly when no bracket of the pattern
      accepts a slash, or some bracket accepts nothing, so that no path matches at all. */
  lemma SegmentwiseIffNoSlashBracket(tokens: seq<Token>, dot: bool)
    requires WellPlaced(tokens)
    ensures NoSlashBracket(tokens) || !Inhabited(tokens) <==> forall path :: AgreesOn(tokens, path, dot)
  {
    if NoSlashBracket(tokens) {
      forall path ensures AgreesOn(tokens, path, dot) {
        SegmentsAgree(tokens, path, dot);
      }
    } else if Inhabited(tokens) {
      SlashBracketShows(tokens, dot);
    } else {
      forall path ensures AgreesOn(tokens, path, dot) {
        if GlobMatch(tokens, path, dot) {
          MatchedIsInhabited(tokens, path, dot);
        }
        if SegmentMatch(Components(tokens), Split(path, '/'), dot) {
          SegmentMatchedIsInhabited(tokens, Split(path, '/'), dot);
        }
      }
    }
  }

  /** The path on which a bracket that accepts a slash shows. */
  lemma SlashBracketShows(tokens: seq<Token>, dot: bool)
    requires WellPlaced(tokens) && Inhabited(tokens) && !NoSlashBracket(tokens)
    ensures !AgreesOn(tokens, Witness(tokens), dot)
  {
    var k :| 0 <= k < |tokens| && IsSlashBracket(tokens[k]);
    var w := Witness(tokens);
    WitnessMatches(tokens, dot);
    WitnessIsLight(tokens);
    SolidIsTotal(w);
    ComponentsNeed(tokens);
    DeepEndIsLast(tokens);
    PiecesHoldNone(w, '/');
    if SegmentMatch(Components(tokens), Split(w, '/'), dot) {
      MatchIsLong(Components(tokens), Split(w, '/'), dot);
      assert false;
    }
  }

  lemma {:induction false} BracketEnds(p: string, o: GlobOptions, i: nat)
    requires i <= |p| && ReadMembers(p, o, i).Some?
    ensures p[ReadMembers(p, o, i).value.1 - 1] == ']'
    decreases |p| - i
  {
    if Escapes(p, o, i) || (p[i] == '[' && Negates(p, i)) {
      BracketEnds(p, o, i + 2);
    } else if p[i] != ']' {
      BracketEnds(p, o, i + 1);
    }
  }

  lemma ConsIsWellPlaced(t: Token, rest: seq<Token>)
    requires WellPlaced(rest) && (t.GlobstarEnd? ==> rest == [])
    requires rest != [] && (rest[0].Globstar? || rest[0].GlobstarEnd?) ==> t == Char('/') || t.Globstar?
    ensures WellPlaced([t] + rest)
  {
    var tokens := [t] + rest;
    assert forall k :: 1 <= k < |tokens| ==> tokens[k] == rest[k - 1];
  }

  /** Where the reader goes on after its first token, and when that place is a leading one. */
  lemma FirstToken(p: string, o: GlobOptions, i: nat) returns (next: nat)
    requires i < |p| && Read(p, o, i).Some?
    ensures i < next <= |p| && Read(p, o, next).Some?
    ensures var t := Read(p, o, i).value[0];
      && Read(p, o, i) == Cons(t, Read(p, o, next))
      && (Leads(p, next) ==> t == Char('/') || t.Globstar?)
      && (t.Globstar? || t.GlobstarEnd? ==> Leads(p, i))
      && (t.GlobstarEnd? ==> next == |p|)
  {
    if p[i] == '[' && !Escapes(p, o, i) {
      var start := if Negates(p, i) then i + 2 else i + 1;
      next := ReadMembers(p, o, start).value.1;
      BracketEnds(p, o, start);
    } else {
      next := TurnAt(p, o, i, false).next;
    }
  }

  /** The tokens of every pattern have their globstars in place. */
  lemma {:induction false} ReadIsWellPlaced(p: string, o: GlobOptions, i: nat)
    requires i <= |p| && Read(p, o, i).Some?
    ensures var tokens := Read(p, o, i).value;
      && WellPlaced(tokens)
      && (tokens != [] && (tokens[0].Globstar? || tokens[0].GlobstarEnd?) ==> Leads(p, i))
    decreases |p| - i
  {
    if i < |p| {
      var next := FirstToken(p, o, i);
      ReadIsWellPlaced(p, o, next);
      ConsIsWellPlaced(Read(p, o, i).value[0], Read(p, o, next).value);
    }
  }

  /** match works segment by segment on every pattern that has no bracket accepting a slash. */
  lemma MatchIsSegmentwise(path: string, pattern: string, o: GlobOptions)
    requires Read(pattern, o, 0).Some? && NoSlashBracket(Read(pattern, o, 0).value)
    ensures var tokens := Read(pattern, o, 0).value;
      Match(path, pattern, o) == if !ValidBrackets(tokens) then None
        else Some(SegmentMatch(Components(tokens), Split(path, '/'), o.dot))
  {
    MatchIsGlobMatch(path, pattern, o);
    ReadIsWellPlaced(pattern, o, 0);
    SegmentsAgree(Read(pattern, o, 0).value, path, o.dot);
  }

  /** On a pattern that match accepts, the two matchers agree on every path exactly when no
      bracket accepts a slash or some bracket accepts nothing. */
  lemma MatchIsSegmentwiseIff(pattern: string, o: GlobOptions)
    requires Read(pattern, o, 0).Some? && ValidBrackets(Read(pattern, o, 0).value)
    ensures var tokens := Read(pattern, o, 0).value;
      NoSlashBracket(tokens) || !Inhabited(tokens) <==> forall path ::
        Match(path, pattern, o) == Some(SegmentMatch(Components(tokens), Split(path, '/'), o.dot))
  {
    var tokens := Read(pattern, o, 0).value;
    ReadIsWellPlaced(pattern, o, 0);
    SegmentwiseIffNoSlashBracket(tokens, o.dot);
    forall path
      ensures Match(path, pattern, o) == Some(SegmentMatch(Components(tokens), Split(path, '/'), o.dot))
        <==> AgreesOn(tokens, path, o.dot)
    {
      MatchIsGlobMatch(path, pattern, o);
    }
  }
}
