/** What the expressions of globs accept. */
module GlobMeaning {
  // Exactly the paths the glob tokens match.  From it follow the facts the other functions of
  // rom/lib/glob.ts rely on.

  import opened Options
  import opened Regex
  import opened Text
  import opened Glob

  // ---------------------------------------------------------------------------
  // Accepting, one atom at a time

  lemma AcceptsSingle(a: Atom, q: Quantifier, s: string)
    ensures Accepts(Term(a, q, End), s) <==> QuantAccepts(a, q, s)
  {
    if Accepts(Term(a, q, End), s) {
      var k :| 0 <= k <= |s| && QuantAccepts(a, q, s[..k]) && Accepts(End, s[k..]);
      assert s[..k] == s;
    }
    if QuantAccepts(a, q, s) {
      assert s[..|s|] == s && Accepts(End, s[|s|..]);
    }
  }

  ghost predicate TwoPieces(a: Atom, q: Quantifier, b: Atom, r: Quantifier, s: string) {
    exists k :: 0 <= k <= |s| && QuantAccepts(a, q, s[..k]) && QuantAccepts(b, r, s[k..])
  }

  lemma AcceptsPair(a: Atom, q: Quantifier, b: Atom, r: Quantifier, s: string)
    ensures Accepts(Term(a, q, Term(b, r, End)), s) <==> TwoPieces(a, q, b, r, s)
  {
    forall k | 0 <= k <= |s| ensures Accepts(Term(b, r, End), s[k..]) <==> QuantAccepts(b, r, s[k..]) {
      AcceptsSingle(b, r, s[k..]);
    }
  }

  /** Does the atom take one character, and this one? */
  predicate TakesChar(a: Atom, c: char) {
    match a
    case Lit(d) => c == d
    case Any => !IsLineTerminator(c)
    case Class(negated, members) => InMembers(members, c) != negated
    case Group(_) => false
  }

  lemma CharAtom(a: Atom, s: string)
    requires !a.Group?
    ensures AtomAccepts(a, s) <==> |s| == 1 && TakesChar(a, s[0])
  {
  }

  lemma {:induction false} ManyChars(a: Atom, s: string)
    requires !a.Group?
    ensures ManyAccepts(a, s) <==> forall k :: 0 <= k < |s| ==> TakesChar(a, s[k])
    decreases |s|
  {
    if s == "" {
    } else {
      ManyChars(a, s[1..]);
      if ManyAccepts(a, s) {
        var k :| 0 < k <= |s| && AtomAccepts(a, s[..k]) && ManyAccepts(a, s[k..]);
        CharAtom(a, s[..k]);
        assert s[..k][0] == s[0] && k == 1;
        assert forall i :: 1 <= i < |s| ==> s[i] == s[1..][i - 1];
      }
      CharAtom(a, s[..1]);
    }
  }

  lemma AcceptsChar(a: Atom, t: Terms, s: string)
    requires !a.Group?
    ensures Accepts(Term(a, Once, t), s) <==> s != "" && TakesChar(a, s[0]) && Accepts(t, s[1..])
  {
    if Accepts(Term(a, Once, t), s) {
      var k :| 0 <= k <= |s| && QuantAccepts(a, Once, s[..k]) && Accepts(t, s[k..]);
      CharAtom(a, s[..k]);
      assert s[..k][0] == s[0];
    }
    if s != "" && TakesChar(a, s[0]) && Accepts(t, s[1..]) {
      CharAtom(a, s[..1]);
      assert QuantAccepts(a, Once, s[..1]);
    }
  }

  lemma Classes(c: char)
    ensures TakesChar(NOT_SLASH, c) <==> c != '/'
    ensures TakesChar(NOT_DOT_SLASH, c) <==> c != '.' && c != '/'
  {
    var m := [Single('.', false), Single('/', false)];
    assert m[1..] == [Single('/', false)] && m[1..][1..] == [];
    assert InMembers([Single('/', false)], c) <==> c == '/';
  }

  lemma QuantNotSlash(s: string)
    ensures QuantAccepts(NOT_SLASH, Many, s) <==> '/' !in s
  {
    ManyChars(NOT_SLASH, s);
    forall c { Classes(c); }
  }

  lemma ManyNotSlash(s: string)
    ensures Accepts(Term(NOT_SLASH, Many, End), s) <==> '/' !in s
  {
    AcceptsSingle(NOT_SLASH, Many, s);
    ManyChars(NOT_SLASH, s);
    forall c { Classes(c); }
  }

  /** `[^./][^/]*` */
  lemma VisibleText(s: string)
    ensures Accepts(Term(NOT_DOT_SLASH, Once, Term(NOT_SLASH, Many, End)), s)
      <==> s != "" && s[0] != '.' && '/' !in s
  {
    AcceptsChar(NOT_DOT_SLASH, Term(NOT_SLASH, Many, End), s);
    if s != "" {
      Classes(s[0]);
      ManyNotSlash(s[1..]);
      assert s == [s[0]] + s[1..];
    }
  }

  lemma OpenSegmentText(s: string)
    ensures AtomAccepts(OPEN_SEGMENT, s) <==> IsOpenSegment(s) && '/' !in s
  {
    var visible := Term(NOT_DOT_SLASH, Once, Term(NOT_SLASH, Many, End));
    VisibleText(s);
    AcceptsChar(Lit('.'), visible, s);
    if s != "" {
      VisibleText(s[1..]);
      assert s == [s[0]] + s[1..];
    }
    assert AltsAccept(Only(Term(Lit('.'), Once, visible)), s) == Accepts(Term(Lit('.'), Once, visible), s);
  }

  // ---------------------------------------------------------------------------
  // Whole segments

  const OPEN_SLASH := Term(OPEN_SEGMENT, Once, Term(SLASH, Once, End))

  lemma SlashedText(a: Atom, s: string)
    ensures Accepts(Term(a, Once, Term(SLASH, Once, End)), s) <==>
      s != "" && s[|s| - 1] == '/' && AtomAccepts(a, s[..|s| - 1])
  {
    var t := Term(SLASH, Once, End);
    if Accepts(Term(a, Once, t), s) {
      var k :| 0 <= k <= |s| && QuantAccepts(a, Once, s[..k]) && Accepts(t, s[k..]);
      AcceptsChar(SLASH, End, s[k..]);
      assert k == |s| - 1;
    }
    if s != "" && s[|s| - 1] == '/' && AtomAccepts(a, s[..|s| - 1]) {
      var k := |s| - 1;
      AcceptsChar(SLASH, End, s[k..]);
      assert QuantAccepts(a, Once, s[..k]);
    }
  }

  /** One whole segment.  The atom that stands for it is a parameter, so that it is not taken
      apart in every proof. */
  lemma WholeSegmentText(a: Atom, s: string, k: nat)
    requires a == Group(Only(OPEN_SLASH)) && 0 < k <= |s|
    ensures AtomAccepts(a, s[..k]) <==> s[k - 1] == '/' && IsOpenSegment(s[..k - 1]) && '/' !in s[..k - 1]
  {
    SlashedText(OPEN_SEGMENT, s[..k]);
    assert s[..k][k - 1] == s[k - 1] && s[..k][..k - 1] == s[..k - 1];
    OpenSegmentText(s[..k - 1]);
  }

  lemma {:induction false} ManyAreWhole(a: Atom, s: string)
    requires a == Group(Only(OPEN_SLASH)) && ManyAccepts(a, s)
    ensures AreWholeSegments(s, false)
    decreases |s|
  {
    if s != "" {
      var k :| 0 < k <= |s| && AtomAccepts(a, s[..k]) && ManyAccepts(a, s[k..]);
      WholeSegmentText(a, s, k);
      ManyAreWhole(a, s[k..]);
      PrependSegment(s, k);
    }
  }

  lemma {:induction false} WholeAreMany(a: Atom, s: string)
    requires a == Group(Only(OPEN_SLASH)) && AreWholeSegments(s, false)
    ensures ManyAccepts(a, s)
    decreases |s|
  {
    if s != "" {
      var k := |Split(s[..|s| - 1], '/')[0]| + 1;
      FirstWholeSegment(s, k);
      WholeSegmentText(a, s, k);
      WholeAreMany(a, s[k..]);
    }
  }

  lemma WholeSegmentsText(a: Atom, s: string)
    requires a == Group(Only(OPEN_SLASH))
    ensures ManyAccepts(a, s) <==> AreWholeSegments(s, false)
  {
    if ManyAccepts(a, s) {
      ManyAreWhole(a, s);
    }
    if AreWholeSegments(s, false) {
      WholeAreMany(a, s);
    }
  }

  lemma FirstSegment(s: string)
    ensures var n := |Split(s, '/')[0]|;
      && n <= |s| && s[..n] == Split(s, '/')[0] && (n < |s| ==> s[n] == '/')
      && (n == |s| ==> Split(s, '/') == [s])
      && (n < |s| ==> Split(s, '/') == [s[..n]] + Split(s[n + 1..], '/'))
  {
    JoinOfSplit(s, '/');
    PiecesHoldNone(s, '/');
    var r := Split(s, '/');
    if |r| == 1 {
    } else {
      var n := |r[0]|;
      assert s == r[0] + ['/'] + Join(r[1..], '/');
      assert s[n + 1..] == Join(r[1..], '/');
      SplitOfJoin(r[1..], '/');
      assert r == [r[0]] + r[1..];
    }
  }

  /** An open segment and its slash in front of whole segments are whole segments. */
  lemma PrependSegment(s: string, k: nat)
    requires 0 < k <= |s| && s[k - 1] == '/' && IsOpenSegment(s[..k - 1]) && '/' !in s[..k - 1]
    requires AreWholeSegments(s[k..], false)
    ensures AreWholeSegments(s, false)
  {
    var body := s[..|s| - 1];
    SplitPlain(s[..k - 1], '/');
    if k == |s| {
    } else {
      var tail := s[k..][..|s[k..]| - 1];
      assert body == s[..k - 1] + ['/'] + tail;
      SplitConcat(s[..k - 1], tail, '/');
    }
  }

  lemma FirstWholeSegment(s: string, k: nat)
    requires s != "" && AreWholeSegments(s, false) && k == |Split(s[..|s| - 1], '/')[0]| + 1
    ensures k <= |s| && s[k - 1] == '/' && IsOpenSegment(s[..k - 1]) && '/' !in s[..k - 1]
    ensures AreWholeSegments(s[k..], false)
  {
    var body := s[..|s| - 1];
    var r := Split(body, '/');
    FirstSegment(body);
    PiecesHoldNone(body, '/');
    assert body[..k - 1] == s[..k - 1] == r[0];
    if k - 1 < |body| {
      assert s[k..][..|s[k..]| - 1] == body[k..];
      assert forall i :: 0 <= i < |Split(body[k..], '/')| ==> Split(body[k..], '/')[i] == r[i + 1];
    }
  }

  // ---------------------------------------------------------------------------
  // Tokens

  lemma TokenText(t: Token, s: string, dot: bool)
    ensures Accepts(CompileToken(t, dot), s) <==> Takes(t, s, dot)
  {
    match t {
      case Char(c) => AcceptsChar(Lit(c), End, s);
      case Bracket(negated, members) => AcceptsChar(Class(negated, members), End, s);
      case One(leading) => OneText(leading, s, dot);
      case Star(leading) => StarText(leading, s, dot);
      case DoubleStar => DoubleStarText(s);
      case Globstar =>
        if dot {
          DotGlobstarMeaning(s);
        } else {
          AcceptsSingle(Group(Only(OPEN_SLASH)), Many, s);
          WholeSegmentsText(Group(Only(OPEN_SLASH)), s);
        }
      case GlobstarEnd => GlobstarEndMeaning(s, dot);
    }
  }

  lemma OneText(leading: bool, s: string, dot: bool)
    ensures Accepts(CompileToken(One(leading), dot), s) <==> Takes(One(leading), s, dot)
  {
    AcceptsChar(if !dot && leading then NOT_DOT_SLASH else NOT_SLASH, End, s);
    if s != "" {
      Classes(s[0]);
    }
  }

  lemma StarText(leading: bool, s: string, dot: bool)
    ensures Accepts(CompileToken(Star(leading), dot), s) <==> Takes(Star(leading), s, dot)
  {
    if !dot && leading {
      VisibleText(s);
      AcceptsSingle(Group(Only(Term(NOT_DOT_SLASH, Once, Term(NOT_SLASH, Many, End)))), Maybe, s);
    } else {
      ManyNotSlash(s);
    }
  }

  lemma DoubleStarText(s: string)
    ensures Accepts(CompileToken(DoubleStar, true), s) <==> '/' !in s
  {
    AcceptsPair(NOT_SLASH, Many, NOT_SLASH, Many, s);
    TwoManys(NOT_SLASH, s);
    QuantNotSlash(s);
  }

  lemma TwoManys(a: Atom, s: string)
    requires !a.Group?
    ensures TwoPieces(a, Many, a, Many, s) <==> QuantAccepts(a, Many, s)
  {
    ManyChars(a, s);
    if k :| 0 <= k <= |s| && QuantAccepts(a, Many, s[..k]) && QuantAccepts(a, Many, s[k..]) {
      ManyChars(a, s[..k]);
      ManyChars(a, s[k..]);
      assert forall i :: 0 <= i < |s| ==> s[i] == if i < k then s[..k][i] else s[k..][i - k];
    }
    if QuantAccepts(a, Many, s) {
      assert s[0..] == s && QuantAccepts(a, Many, s[..0]);
    }
  }

  lemma ManyAny(s: string)
    ensures Accepts(Term(Any, Many, End), s) <==> NoLineTerminator(s)
  {
    AcceptsSingle(Any, Many, s);
    ManyChars(Any, s);
  }

  lemma DotGlobstarMeaning(s: string)
    ensures Accepts(CompileToken(Globstar, true), s) <==> AreWholeSegments(s, true)
  {
    var inner := Term(Any, Many, Term(SLASH, Once, End));
    AcceptsSingle(Group(Only(inner)), Maybe, s);
    DotSegmentsText(inner, s);
  }

  lemma DotSegmentsText(inner: Terms, s: string)
    requires inner == Term(Any, Many, Term(SLASH, Once, End))
    ensures s == "" || Accepts(inner, s) <==> AreWholeSegments(s, true)
  {
    AcceptsPair(Any, Many, SLASH, Once, s);
    ManyThenOne(Any, SLASH, s);
  }

  lemma ManyThenOne(a: Atom, b: Atom, s: string)
    requires !a.Group? && !b.Group?
    ensures TwoPieces(a, Many, b, Once, s) <==>
      s != "" && TakesChar(b, s[|s| - 1]) && forall i :: 0 <= i < |s| - 1 ==> TakesChar(a, s[i])
  {
    if k :| 0 <= k <= |s| && QuantAccepts(a, Many, s[..k]) && QuantAccepts(b, Once, s[k..]) {
      CharAtom(b, s[k..]);
      ManyChars(a, s[..k]);
      assert k == |s| - 1 && s[k..][0] == s[k];
      assert forall i :: 0 <= i < k ==> s[..k][i] == s[i];
    }
    if s != "" && TakesChar(b, s[|s| - 1]) && forall i :: 0 <= i < |s| - 1 ==> TakesChar(a, s[i]) {
      var k := |s| - 1;
      CharAtom(b, s[k..]);
      ManyChars(a, s[..k]);
      assert QuantAccepts(a, Many, s[..k]) && QuantAccepts(b, Once, s[k..]);
    }
  }

  lemma GlobstarEndMeaning(s: string, dot: bool)
    ensures Accepts(CompileToken(GlobstarEnd, dot), s) <==> Takes(GlobstarEnd, s, dot)
  {
    if dot {
      ManyAny(s);
    } else {
      var inner := Term(NOT_DOT_SLASH, Once, Term(Any, Many, End));
      AcceptsSingle(Group(Only(inner)), Maybe, s);
      AcceptsChar(NOT_DOT_SLASH, Term(Any, Many, End), s);
      if s != "" {
        Classes(s[0]);
        ManyAny(s[1..]);
      }
    }
  }

  // ---------------------------------------------------------------------------
  // Patterns

  /** The expression of a token list accepts exactly the paths the tokens match. */
  lemma {:induction false} CompileIsCorrect(tokens: seq<Token>, path: string, dot: bool)
    ensures Accepts(Compile(tokens, dot), path) <==> GlobMatch(tokens, path, dot)
    decreases |tokens|
  {
    if tokens == [] {
    } else {
      var t, rest := tokens[0], tokens[1..];
      AppendAccepts(CompileToken(t, dot), Compile(rest, dot), path);
      forall k | 0 <= k <= |path|
        ensures Accepts(CompileToken(t, dot), path[..k]) <==> Takes(t, path[..k], dot)
        ensures Accepts(Compile(rest, dot), path[k..]) <==> GlobMatch(rest, path[k..], dot)
      {
        TokenText(t, path[..k], dot);
        CompileIsCorrect(rest, path[k..], dot);
      }
    }
  }

  predicate ValidBrackets(tokens: seq<Token>) {
    forall k :: 0 <= k < |tokens| && tokens[k].Bracket? ==> ValidMembers(tokens[k].members)
  }

  /** match: None when new RegExp throws. */
  ghost function Match(path: string, pattern: string, o: GlobOptions): Option<bool> {
    var regex := ParseAnchored("^" + Emit(pattern, o, 0, false) + "$");
    if regex.None? then None else Some(Accepts(regex.value, path))
  }

  /** match agrees with the glob semantics on every pattern and every path, and throws
      exactly when a bracket is not closed or a range runs downwards. */
  lemma MatchIsGlobMatch(path: string, pattern: string, o: GlobOptions)
    ensures var tokens := Read(pattern, o, 0);
      Match(path, pattern, o) ==
        if tokens.None? || !ValidBrackets(tokens.value) then None
        else Some(GlobMatch(tokens.value, path, o.dot))
  {
    TextParses(pattern, o);
    var tokens := Read(pattern, o, 0);
    if tokens.Some? {
      ValidCompile(tokens.value, o.dot);
      CompileIsCorrect(tokens.value, path, o.dot);
    }
  }

  lemma {:induction false} ValidCompile(tokens: seq<Token>, dot: bool)
    ensures Valid(Compile(tokens, dot)) <==> ValidBrackets(tokens)
  {
    if tokens == [] {
    } else {
      ValidCompile(tokens[1..], dot);
      ValidAppend(CompileToken(tokens[0], dot), Compile(tokens[1..], dot));
      assert tokens == [tokens[0]] + tokens[1..];
      if !tokens[0].Bracket? {
        WildcardText(tokens[0], dot);
      }
    }
  }

  lemma {:induction false} ValidAppend(t: Terms, u: Terms)
    ensures Valid(Append(t, u)) <==> Valid(t) && Valid(u)
  {
    match t {
      case End =>
      case Term(_, _, rest) => ValidAppend(rest, u);
    }
  }
}
