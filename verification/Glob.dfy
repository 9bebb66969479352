/** The glob compiler of rom/lib/glob.ts. */
module Glob {
  // A pattern is read as glob tokens with a meaning of their own; the text toRegex builds is
  // proved to parse, as a regular expression, to one that accepts exactly the paths the tokens
  // match, for every pattern and every path.

  import opened Options
  import opened Regex
  import opened Sequences
  import opened Text

  /** The options toRegex looks at, `nocase` apart. */
  datatype GlobOptions = GlobOptions(dot: bool, noescape: bool)

  /** `leading` marks a wildcard at the start of the pattern or after a slash. */
  datatype Token =
    | Char(c: char)
    | Bracket(negated: bool, members: seq<Member>)
    | One(leading: bool)
    | Star(leading: bool)
    | DoubleStar
    | Globstar
    | GlobstarEnd

  // ---------------------------------------------------------------------------
  // What a glob means

  predicate NoLineTerminator(s: string) {
    forall k :: 0 <= k < |s| ==> !IsLineTerminator(s[k])
  }

  /** A path segment `**` passes through: not empty, and neither a lone dot nor one that
      begins with two. */
  predicate IsOpenSegment(s: string) {
    s != "" && (s[0] != '.' || (|s| > 1 && s[1] != '.'))
  }

  /** Whole segments, each with its slash. */
  predicate AreWholeSegments(s: string, dot: bool) {
    s == "" || (s[|s| - 1] == '/' &&
      var segments := s[..|s| - 1];
      if dot then NoLineTerminator(segments)
      else forall k :: 0 <= k < |Split(segments, '/')| ==> IsOpenSegment(Split(segments, '/')[k]))
  }

  /** The text a token may take. */
  predicate Takes(t: Token, s: string, dot: bool) {
    match t
    case Char(c) => s == [c]
    case Bracket(negated, members) => |s| == 1 && InMembers(members, s[0]) != negated
    case One(leading) => |s| == 1 && s[0] != '/' && (leading && !dot ==> s[0] != '.')
    case Star(leading) => '/' !in s && (leading && !dot && s != "" ==> s[0] != '.')
    case DoubleStar => '/' !in s
    case Globstar => AreWholeSegments(s, dot)
    case GlobstarEnd =>
      if dot then NoLineTerminator(s)
      else s == "" || (s[0] != '.' && s[0] != '/' && NoLineTerminator(s[1..]))
  }

  /** The path is one text after the other that the tokens take. */
  ghost predicate GlobMatch(tokens: seq<Token>, path: string, dot: bool) {
    if tokens == [] then path == ""
    else exists k :: 0 <= k <= |path| && Takes(tokens[0], path[..k], dot) && GlobMatch(tokens[1..], path[k..], dot)
  }

  // ---------------------------------------------------------------------------
  // Reading a pattern

  predicate Escapes(p: string, o: GlobOptions, i: nat) {
    i + 1 < |p| && p[i] == '\\' && !o.noescape
  }

  predicate Leads(p: string, i: nat)
    requires i <= |p|
  {
    i == 0 || p[i - 1] == '/'
  }

  predicate Negates(p: string, i: nat) {
    i + 1 < |p| && (p[i + 1] == '!' || p[i + 1] == '^')
  }

  predicate IsDoubleStar(p: string, i: nat) {
    i + 1 < |p| && p[i] == '*' && p[i + 1] == '*'
  }

  predicate IsProperGlobstar(p: string, i: nat) {
    IsDoubleStar(p, i) && Leads(p, i) && (i + 2 == |p| || p[i + 2] == '/')
  }

  /** A character inside brackets; also an escaped hyphen spans a range. */
  function MemberOf(c: char): Member {
    if c == '-' then Hyphen else Single(c, IsSpecial(c))
  }

  /** The members of a bracket from position i on, and the position after its end.  A
      nested opening bracket is a member, and so is the caret a mark after it turns into. */
  function ReadMembers(p: string, o: GlobOptions, i: nat): (r: Option<(seq<Member>, nat)>)
    requires i <= |p|
    ensures r.Some? ==> i < r.value.1 <= |p|
    decreases |p| - i
  {
    if i == |p| then None
    else if Escapes(p, o, i) then Prepend([MemberOf(p[i + 1])], ReadMembers(p, o, i + 2))
    else if p[i] == '[' then
      if Negates(p, i) then Prepend([Single('[', false), Single('^', false)], ReadMembers(p, o, i + 2))
      else Prepend([Single('[', false)], ReadMembers(p, o, i + 1))
    else if p[i] == ']' then Some(([], i + 1))
    else Prepend([MemberOf(p[i])], ReadMembers(p, o, i + 1))
  }

  function Prepend(ms: seq<Member>, r: Option<(seq<Member>, nat)>): Option<(seq<Member>, nat)> {
    if r.None? then None else Some((ms + r.value.0, r.value.1))
  }

  function Cons(t: Token, r: Option<seq<Token>>): Option<seq<Token>> {
    if r.None? then None else Some([t] + r.value)
  }

  /** The tokens of the pattern from position i on; None when a bracket is not closed. */
  function Read(p: string, o: GlobOptions, i: nat): Option<seq<Token>>
    requires i <= |p|
    decreases |p| - i
  {
    if i == |p| then Some([])
    else if Escapes(p, o, i) then Cons(Char(p[i + 1]), Read(p, o, i + 2))
    else if p[i] == '[' then
      var r := ReadMembers(p, o, if Negates(p, i) then i + 2 else i + 1);
      if r.None? then None else Cons(Bracket(Negates(p, i), r.value.0), Read(p, o, r.value.1))
    else if IsProperGlobstar(p, i) then
      if i + 2 == |p| then Cons(GlobstarEnd, Read(p, o, i + 2)) else Cons(Globstar, Read(p, o, i + 3))
    else if IsDoubleStar(p, i) then Cons(DoubleStar, Read(p, o, i + 2))
    else if p[i] == '*' then Cons(Star(Leads(p, i)), Read(p, o, i + 1))
    else if p[i] == '?' then Cons(One(Leads(p, i)), Read(p, o, i + 1))
    else Cons(Char(p[i]), Read(p, o, i + 1))
  }

  // ---------------------------------------------------------------------------
  // toRegex

  /** One turn of the loop at position i: what it adds, and where it leaves the state. */
  datatype Turn = Turn(added: string, next: nat, inBracket: bool)

  function TurnAt(p: string, o: GlobOptions, i: nat, inBracket: bool): (t: Turn)
    requires i < |p|
    ensures i < t.next <= |p|
  {
    if Escapes(p, o, i) then Turn(EscapeRegex(p[i + 1]), i + 2, inBracket)
    else if p[i] == '[' then
      if Negates(p, i) then Turn("[^", i + 2, true) else Turn("[", i + 1, true)
    else if inBracket then
      if p[i] == ']' then Turn("]", i + 1, false) else Turn(EscapeRegex(p[i]), i + 1, true)
    else if IsProperGlobstar(p, i) then
      if i + 2 < |p| then Turn(EmitToken(Globstar, o.dot), i + 3, false)
      else Turn(EmitToken(GlobstarEnd, o.dot), i + 2, false)
    else if IsDoubleStar(p, i) then Turn(EmitToken(DoubleStar, o.dot), i + 2, false)
    else if p[i] == '*' then Turn(EmitToken(Star(Leads(p, i)), o.dot), i + 1, false)
    else if p[i] == '?' then Turn(EmitToken(One(Leads(p, i)), o.dot), i + 1, false)
    else Turn(EscapeRegex(p[i]), i + 1, false)
  }

  /** The text the loop still adds from position i on. */
  function Emit(p: string, o: GlobOptions, i: nat, inBracket: bool): string
    requires i <= |p|
    decreases |p| - i
  {
    if i == |p| then ""
    else
      var t := TurnAt(p, o, i, inBracket);
      t.added + Emit(p, o, t.next, t.inBracket)
  }

  /** The regular expression texts of the wildcards. */
  function EmitToken(t: Token, dot: bool): string {
    match t
    case Char(c) => EscapeRegex(c)
    case Bracket(_, _) => ""
    case One(leading) => if !dot && leading then "[^./]" else "[^/]"
    case Star(leading) => if !dot && leading then "(?:[^./][^/]*)?" else "[^/]*"
    case DoubleStar => "[^/]*[^/]*"
    case Globstar => if dot then "(?:.*/)?" else "(?:" + "(?:[^./][^/]*|\\.[^./][^/]*)" + "/)*"
    case GlobstarEnd => if dot then ".*" else "(?:[^./].*)?"
  }

  /** The branches of toRegex for a star or a question mark outside brackets: the text
      they add and the position they move to. */
  method Wildcard(pattern: string, o: GlobOptions, i: nat) returns (added: string, next: nat)
    requires i < |pattern| && (pattern[i] == '*' || pattern[i] == '?')
    ensures TurnAt(pattern, o, i, false) == Turn(added, next, false)
  {
    var ch := pattern[i];
    if ch == '*' && i + 1 < |pattern| && pattern[i + 1] == '*' {
      if (i == 0 || pattern[i - 1] == '/') && (i + 2 == |pattern| || pattern[i + 2] == '/') {
        if i + 2 < |pattern| {
          added := if o.dot then "(?:.*/)?" else "(?:" + "(?:[^./][^/]*|\\.[^./][^/]*)" + "/)*";
          next := i + 3;
        } else {
          added := if o.dot then ".*" else "(?:[^./].*)?";
          next := i + 2;
        }
      } else {
        added := "[^/]*[^/]*";
        next := i + 2;
      }
    } else if ch == '*' {
      if o.dot {
        added := "[^/]*";
      } else if i == 0 || pattern[i - 1] == '/' {
        added := "(?:[^./][^/]*)?";
      } else {
        added := "[^/]*";
      }
      next := i + 1;
    } else {
      if o.dot {
        added := "[^/]";
      } else if i == 0 || pattern[i - 1] == '/' {
        added := "[^./]";
      } else {
        added := "[^/]";
      }
      next := i + 1;
    }
  }

  /** toRegex: one pass over the pattern that adds to the text.  (The source tests for an
      escape a second time inside brackets, where the first test has already taken it.) */
  method ToRegex(pattern: string, o: GlobOptions) returns (text: string)
    ensures text == "^" + Emit(pattern, o, 0, false) + "$"
    ensures ParseAnchored(text) == Compiled(pattern, o)
  {
    var regex := "";
    var inBracket := false;
    var i := 0;
    while i < |pattern|
      invariant 0 <= i <= |pattern|
      invariant Emit(pattern, o, 0, false) == regex + Emit(pattern, o, i, inBracket)
      decreases |pattern| - i
    {
      var ch := pattern[i];
      ghost var before, turn := regex, TurnAt(pattern, o, i, inBracket);
      if !o.noescape && ch == '\\' && i + 1 < |pattern| {
        regex := regex + EscapeRegex(pattern[i + 1]);
        i := i + 2;
      } else if ch == '[' {
        inBracket := true;
        regex := regex + "[";
        if i + 1 < |pattern| && (pattern[i + 1] == '!' || pattern[i + 1] == '^') {
          regex := regex + "^";
          i := i + 1;
        }
        i := i + 1;
      } else if ch == ']' && inBracket {
        inBracket := false;
        regex := regex + "]";
        i := i + 1;
      } else if inBracket {
        regex := regex + (if ch == '-' then "-" else EscapeRegex(ch));
        i := i + 1;
      } else if ch == '*' || ch == '?' {
        var added, next := Wildcard(pattern, o, i);
        regex, i := regex + added, next;
      } else {
        regex := regex + EscapeRegex(ch);
        i := i + 1;
      }
      assert i == turn.next && inBracket == turn.inBracket && regex == before + turn.added;
      Regroup(before, turn.added, Emit(pattern, o, i, inBracket));
    }
    assert regex + "" == regex;
    text := "^" + regex + "$";
    TextParses(pattern, o);
  }

  // ---------------------------------------------------------------------------
  // The expression behind the text

  const NOT_SLASH := Class(true, [Single('/', false)])
  const NOT_DOT_SLASH := Class(true, [Single('.', false), Single('/', false)])
  const SLASH := Lit('/')

  function CompileToken(t: Token, dot: bool): Terms {
    match t
    case Char(c) => Term(Lit(c), Once, End)
    case Bracket(negated, members) => Term(Class(negated, members), Once, End)
    case One(leading) => Term(if !dot && leading then NOT_DOT_SLASH else NOT_SLASH, Once, End)
    case Star(leading) =>
      if !dot && leading then Term(Group(Only(Term(NOT_DOT_SLASH, Once, Term(NOT_SLASH, Many, End)))), Maybe, End)
      else Term(NOT_SLASH, Many, End)
    case DoubleStar => Term(NOT_SLASH, Many, Term(NOT_SLASH, Many, End))
    case Globstar =>
      if dot then Term(Group(Only(Term(Any, Many, Term(SLASH, Once, End)))), Maybe, End)
      else Term(Group(Only(Term(OPEN_SEGMENT, Once, Term(SLASH, Once, End)))), Many, End)
    case GlobstarEnd =>
      if dot then Term(Any, Many, End)
      else Term(Group(Only(Term(NOT_DOT_SLASH, Once, Term(Any, Many, End)))), Maybe, End)
  }

  const OPEN_SEGMENT := Group(Or(Term(NOT_DOT_SLASH, Once, Term(NOT_SLASH, Many, End)),
    Only(Term(Lit('.'), Once, Term(NOT_DOT_SLASH, Once, Term(NOT_SLASH, Many, End))))))

  function Compile(tokens: seq<Token>, dot: bool): Terms {
    if tokens == [] then End else Append(CompileToken(tokens[0], dot), Compile(tokens[1..], dot))
  }

  /** The expression of a pattern; None when a bracket is not closed or a range runs
      downwards. */
  function Compiled(p: string, o: GlobOptions): Option<Terms> {
    var tokens := Read(p, o, 0);
    if tokens.None? || !Valid(Compile(tokens.value, o.dot)) then None else Some(Compile(tokens.value, o.dot))
  }

  lemma WildcardText(t: Token, dot: bool)
    requires !t.Bracket?
    ensures Print(CompileToken(t, dot)) == EmitToken(t, dot)
    ensures Printable(CompileToken(t, dot)) && Valid(CompileToken(t, dot))
  {
    WildcardIsPrintable(t, dot);
    match t {
      case Char(c) =>
        PrintSingle(Lit(c), Once);
      case One(leading) =>
        PrintClasses();
        PrintSingle(NOT_SLASH, Once);
        PrintSingle(NOT_DOT_SLASH, Once);
      case Star(leading) =>
        PrintClasses();
        PrintSingle(NOT_SLASH, Many);
        StarText();
      case DoubleStar =>
        PrintClasses();
        PrintPair(NOT_SLASH, Many, NOT_SLASH, Many);
      case Globstar =>
        GlobstarText();
        DotGlobstarText();
      case GlobstarEnd =>
        PrintSingle(Any, Many);
        GlobstarEndText();
    }
  }

  lemma WildcardIsPrintable(t: Token, dot: bool)
    requires !t.Bracket?
    ensures Printable(CompileToken(t, dot)) && Valid(CompileToken(t, dot))
  {
    PrintClasses();
    if t.Globstar? {
      GlobstarText();
    }
  }

  lemma PrintSingle(a: Atom, q: Quantifier)
    ensures Print(Term(a, q, End)) == PrintAtom(a) + PrintQuantifier(q)
  {
  }

  lemma StarText()
    ensures Print(CompileToken(Star(true), false)) == EmitToken(Star(true), false)
  {
    PrintClasses();
    PrintPair(NOT_DOT_SLASH, Once, NOT_SLASH, Many);
    PrintSingle(Group(Only(Term(NOT_DOT_SLASH, Once, Term(NOT_SLASH, Many, End)))), Maybe);
  }

  lemma DotGlobstarText()
    ensures Print(CompileToken(Globstar, true)) == EmitToken(Globstar, true)
  {
    PrintPair(Any, Many, SLASH, Once);
    PrintSingle(Group(Only(Term(Any, Many, Term(SLASH, Once, End)))), Maybe);
  }

  lemma GlobstarText()
    ensures Print(CompileToken(Globstar, false)) == EmitToken(Globstar, false)
    ensures Printable(CompileToken(Globstar, false)) && Valid(CompileToken(Globstar, false))
  {
    PrintOpenSegment();
    PrintSlashed(OPEN_SEGMENT);
  }

  lemma PrintSlashed(a: Atom)
    requires PrintableAtom(a) && ValidAtom(a)
    ensures Printable(Term(Group(Only(Term(a, Once, Term(SLASH, Once, End)))), Many, End))
    ensures Valid(Term(Group(Only(Term(a, Once, Term(SLASH, Once, End)))), Many, End))
    ensures Print(Term(Group(Only(Term(a, Once, Term(SLASH, Once, End)))), Many, End)) == "(?:" + PrintAtom(a) + "/)*"
  {
    var inner := Term(a, Once, Term(SLASH, Once, End));
    assert Printable(Term(SLASH, Once, End)) && Valid(Term(SLASH, Once, End));
    assert Printable(inner) && Valid(inner);
    assert PrintableAtom(Group(Only(inner))) && ValidAtom(Group(Only(inner)));
    PrintPair(a, Once, SLASH, Once);
    PrintSingle(Group(Only(Term(a, Once, Term(SLASH, Once, End)))), Many);
  }

  lemma GlobstarEndText()
    ensures Print(CompileToken(GlobstarEnd, false)) == EmitToken(GlobstarEnd, false)
  {
    PrintClasses();
    PrintPair(NOT_DOT_SLASH, Once, Any, Many);
    PrintSingle(Group(Only(Term(NOT_DOT_SLASH, Once, Term(Any, Many, End)))), Maybe);
  }

  lemma PrintClasses()
    ensures PrintAtom(NOT_SLASH) == "[^/]" && PrintAtom(NOT_DOT_SLASH) == "[^./]"
    ensures PrintableAtom(NOT_SLASH) && PrintableAtom(NOT_DOT_SLASH)
    ensures ValidAtom(NOT_SLASH) && ValidAtom(NOT_DOT_SLASH)
  {
    assert [Single('.', false), Single('/', false)][1..] == [Single('/', false)];
    assert [Single('/', false)][1..] == [];
    assert PrintMembers([Single('/', false)]) == "/";
  }

  lemma PrintPair(a: Atom, q: Quantifier, b: Atom, r: Quantifier)
    ensures Print(Term(a, q, Term(b, r, End))) == PrintAtom(a) + PrintQuantifier(q) + PrintAtom(b) + PrintQuantifier(r)
  {
    assert Print(Term(b, r, End)) == PrintAtom(b) + PrintQuantifier(r);
  }

  lemma PrintVisible()
    ensures var visible := Term(NOT_DOT_SLASH, Once, Term(NOT_SLASH, Many, End));
      Print(visible) == "[^./][^/]*" && Printable(visible) && Valid(visible)
  {
    PrintClasses();
    PrintPair(NOT_DOT_SLASH, Once, NOT_SLASH, Many);
  }

  lemma PrintEither(t: Terms, c: char)
    requires Printable(t) && Valid(t)
    ensures var a := Group(Or(t, Only(Term(Lit(c), Once, t))));
      && PrintAtom(a) == "(?:" + (Print(t) + "|" + (EscapeRegex(c) + "" + Print(t))) + ")"
      && PrintableAtom(a) && ValidAtom(a)
  {
    var u := Term(Lit(c), Once, t);
    assert Print(u) == EscapeRegex(c) + "" + Print(t) && Printable(u) && Valid(u);
    assert PrintAlts(Only(u)) == Print(u) && PrintableAlts(Only(u)) && ValidAlts(Only(u));
  }

  lemma PrintOpenSegment()
    ensures PrintAtom(OPEN_SEGMENT) == "(?:[^./][^/]*|\\.[^./][^/]*)"
    ensures PrintableAtom(OPEN_SEGMENT) && ValidAtom(OPEN_SEGMENT)
  {
    PrintVisible();
    PrintEither(Term(NOT_DOT_SLASH, Once, Term(NOT_SLASH, Many, End)), '.');
    assert EscapeRegex('.') == "\\.";
  }

  // ---------------------------------------------------------------------------
  // The text parses to the expression

  lemma MemberOfIsPrintable(c: char)
    ensures PrintMember(MemberOf(c)) == EscapeRegex(c)
    ensures PrintableMembers([MemberOf(c)]) && MemberOf(c) != Single('^', false)
  {
  }

  lemma PrintMembersConcat(a: seq<Member>, b: seq<Member>)
    requires 1 <= |a| <= 2
    ensures PrintMembers(a + b) == PrintMembers(a) + PrintMembers(b)
  {
    assert (a + b)[1..] == a[1..] + b;
    if |a| == 2 {
      assert (a[1..] + b)[1..] == b;
    }
    assert PrintMembers([]) == "";
  }

  /** What a turn inside brackets, other than the closing one, adds to the members. */
  function MembersAt(p: string, o: GlobOptions, i: nat): (ms: seq<Member>)
    requires i < |p| && (Escapes(p, o, i) || p[i] != ']')
    ensures 1 <= |ms| <= 2
  {
    if Escapes(p, o, i) then [MemberOf(p[i + 1])]
    else if p[i] == '[' then
      if Negates(p, i) then [Single('[', false), Single('^', false)] else [Single('[', false)]
    else [MemberOf(p[i])]
  }

  lemma TurnPrintsMembers(p: string, o: GlobOptions, i: nat)
    requires i < |p| && (Escapes(p, o, i) || p[i] != ']')
    ensures var t, ms := TurnAt(p, o, i, true), MembersAt(p, o, i);
      && t.added == PrintMembers(ms) && t.inBracket
      && ReadMembers(p, o, i) == Prepend(ms, ReadMembers(p, o, t.next))
      && PrintableMembers(ms) && ms[0] != Single('^', false)
  {
    var ms := MembersAt(p, o, i);
    assert ms[1..] == if |ms| == 1 then [] else [Single('^', false)];
    assert PrintMembers([Single('^', false)]) == "^";
    if Escapes(p, o, i) {
      MemberOfIsPrintable(p[i + 1]);
    } else {
      MemberOfIsPrintable(p[i]);
    }
  }

  ghost predicate IsBracketText(text: string, ms: seq<Member>, after: string) {
    text == PrintMembers(ms) + "]" + after && PrintableMembers(ms) && (ms != [] ==> ms[0] != Single('^', false))
  }

  /** A closed bracket's text is its members, printed. */
  lemma {:induction false} ClosedBracketText(p: string, o: GlobOptions, i: nat)
    requires i <= |p| && ReadMembers(p, o, i).Some?
    ensures IsBracketText(Emit(p, o, i, true), ReadMembers(p, o, i).value.0,
                          Emit(p, o, ReadMembers(p, o, i).value.1, false))
    decreases |p| - i
  {
    if Escapes(p, o, i) || p[i] != ']' {
      var next, a := TurnAt(p, o, i, true).next, MembersAt(p, o, i);
      TurnPrintsMembers(p, o, i);
      ClosedBracketText(p, o, next);
      var (ms, j) := ReadMembers(p, o, next).value;
      MoreBracketText(a, Emit(p, o, next, true), ms, Emit(p, o, j, false));
    }
  }

  lemma MoreBracketText(a: seq<Member>, text: string, ms: seq<Member>, after: string)
    requires 1 <= |a| <= 2 && PrintableMembers(a) && a[0] != Single('^', false) && IsBracketText(text, ms, after)
    ensures IsBracketText(PrintMembers(a) + text, a + ms, after)
  {
    PrintMembersConcat(a, ms);
    RegroupFour(PrintMembers(a), PrintMembers(ms), "]", after);
  }

  /** The text of a bracket that is not closed cannot be read as a class. */
  lemma {:induction false} OpenBracketText(p: string, o: GlobOptions, i: nat)
    requires i <= |p| && ReadMembers(p, o, i).None?
    ensures ParseMembers(Emit(p, o, i, true) + "$") == None
    ensures (Emit(p, o, i, true) + "$")[0] != '^'
    decreases |p| - i
  {
    if i == |p| {
      assert Emit(p, o, i, true) + "$" == "$";
      assert ParseMembers("$"[1..]) == None;
    } else {
      var t, ms := TurnAt(p, o, i, true), MembersAt(p, o, i);
      TurnPrintsMembers(p, o, i);
      OpenBracketText(p, o, t.next);
      MembersFirst(ms, Emit(p, o, t.next, true) + "$");
      assert Emit(p, o, i, true) + "$" == PrintMembers(ms) + (Emit(p, o, t.next, true) + "$");
    }
  }

  lemma MembersFirst(ms: seq<Member>, s: string)
    requires 1 <= |ms| <= 2 && PrintableMembers(ms) && ParseMembers(s) == None
    ensures ParseMembers(PrintMembers(ms) + s) == None
    ensures PrintMembers(ms) != "" && (ms[0] != Single('^', false) ==> PrintMembers(ms)[0] != '^')
  {
    MemberFirst(ms[|ms| - 1], s);
    PrintOneOrTwo(ms, s);
    if |ms| == 2 {
      MemberFirst(ms[0], PrintMember(ms[1]) + s);
    }
  }

  lemma PrintOneOrTwo(ms: seq<Member>, s: string)
    requires 1 <= |ms| <= 2
    ensures PrintMembers(ms) + s == PrintMember(ms[0]) + (if |ms| == 1 then s else PrintMember(ms[1]) + s)
    ensures PrintMember(ms[0]) <= PrintMembers(ms)
  {
    PrintOne(ms[|ms| - 1]);
    if |ms| == 1 {
      assert ms == [ms[0]];
    } else {
      assert ms[1..] == [ms[1]];
      Regroup(PrintMember(ms[0]), PrintMember(ms[1]), s);
    }
  }

  lemma PrintOne(m: Member)
    ensures PrintMembers([m]) == PrintMember(m)
  {
    assert PrintMembers([m][1..]) == "";
  }

  /** The token a turn outside brackets reads, when it is not a bracket. */
  lemma {:induction false} TokensText(p: string, o: GlobOptions, i: nat)
    requires i <= |p|
    ensures !StartsWithQuantifier(Emit(p, o, i, false) + "$")
    ensures Read(p, o, i).Some? ==>
      && Emit(p, o, i, false) == Print(Compile(Read(p, o, i).value, o.dot))
      && Printable(Compile(Read(p, o, i).value, o.dot))
    ensures Read(p, o, i).None? ==> ParseTerms(Emit(p, o, i, false) + "$") == None
    decreases |p| - i
  {
    if i == |p| {
      assert Emit(p, o, i, false) + "$" == "$";
    } else if p[i] == '[' && !Escapes(p, o, i) {
      if ReadMembers(p, o, Body(p, i)).None? {
        UnclosedBracket(p, o, i);
      } else {
        var k := ReadMembers(p, o, Body(p, i)).value.1;
        TokensText(p, o, k);
        ClosedBracket(p, o, i, k);
      }
    } else {
      var t := TurnAt(p, o, i, false);
      var token := TokenAt(p, o, i);
      TokensText(p, o, t.next);
      WildcardText(token, o.dot);
      OneTokenText(token, Emit(p, o, t.next, false), Read(p, o, t.next), o.dot);
      assert Read(p, o, i) == Cons(token, Read(p, o, t.next));
      assert Emit(p, o, i, false) == Print(CompileToken(token, o.dot)) + Emit(p, o, t.next, false);
    }
  }

  function TokenAt(p: string, o: GlobOptions, i: nat): (t: Token)
    requires i < |p| && (Escapes(p, o, i) || p[i] != '[')
    ensures !t.Bracket? && TurnAt(p, o, i, false).added == EmitToken(t, o.dot)
    ensures !TurnAt(p, o, i, false).inBracket
    ensures Read(p, o, i) == Cons(t, Read(p, o, TurnAt(p, o, i, false).next))
  {
    if Escapes(p, o, i) then Char(p[i + 1])
    else if IsProperGlobstar(p, i) then if i + 2 == |p| then GlobstarEnd else Globstar
    else if IsDoubleStar(p, i) then DoubleStar
    else if p[i] == '*' then Star(Leads(p, i))
    else if p[i] == '?' then One(Leads(p, i))
    else Char(p[i])
  }

  ghost predicate TextOf(text: string, r: Option<seq<Token>>, dot: bool) {
    && !StartsWithQuantifier(text + "$")
    && (r.Some? ==> text == Print(Compile(r.value, dot)) && Printable(Compile(r.value, dot)))
    && (r.None? ==> ParseTerms(text + "$") == None)
  }

  /** Putting a token in front keeps text and tokens in step. */
  lemma OneTokenText(t: Token, text: string, r: Option<seq<Token>>, dot: bool)
    requires Printable(CompileToken(t, dot)) && TextOf(text, r, dot)
    ensures TextOf(Print(CompileToken(t, dot)) + text, Cons(t, r), dot)
  {
    var u := CompileToken(t, dot);
    TermsRoundTrip(u, text + "$");
    assert Print(u) + text + "$" == Print(u) + (text + "$");
    if r.Some? {
      assert ([t] + r.value)[1..] == r.value;
      PrintAppend(u, Compile(r.value, dot));
      PrintableAppend(u, Compile(r.value, dot));
    }
  }

  lemma {:induction false} PrintableAppend(t: Terms, u: Terms)
    requires Printable(t) && Printable(u)
    ensures Printable(Append(t, u))
  {
    match t {
      case End =>
      case Term(_, _, rest) => PrintableAppend(rest, u);
    }
  }

  /** Where the members of the bracket at i begin. */
  function Body(p: string, i: nat): (j: nat)
    requires i < |p|
    ensures j <= |p|
  {
    if Negates(p, i) then i + 2 else i + 1
  }

  lemma UnclosedBracket(p: string, o: GlobOptions, i: nat)
    requires i < |p| && p[i] == '[' && !Escapes(p, o, i) && ReadMembers(p, o, Body(p, i)).None?
    ensures TextOf(Emit(p, o, i, false), None, o.dot) && Read(p, o, i) == None
  {
    var opening, body := if Negates(p, i) then "[^" else "[", Emit(p, o, Body(p, i), true);
    OpenBracketText(p, o, Body(p, i));
    UnclosedClass(Negates(p, i), body + "$");
    assert Emit(p, o, i, false) + "$" == opening + (body + "$");
  }

  lemma ClosedBracket(p: string, o: GlobOptions, i: nat, k: nat)
    requires i < |p| && p[i] == '[' && !Escapes(p, o, i) && ReadMembers(p, o, Body(p, i)).Some?
    requires k == ReadMembers(p, o, Body(p, i)).value.1
    requires TextOf(Emit(p, o, k, false), Read(p, o, k), o.dot)
    ensures TextOf(Emit(p, o, i, false), Read(p, o, i), o.dot)
  {
    var ms := ReadMembers(p, o, Body(p, i)).value.0;
    ClosedBracketText(p, o, Body(p, i));
    var t := Bracket(Negates(p, i), ms);
    assert Printable(End) && Printable(CompileToken(t, o.dot));
    ClassText(t, Emit(p, o, k, false), Read(p, o, k), o.dot);
    ClosedBracketParts(p, o, i, k, ms);
  }

  lemma ClosedBracketParts(p: string, o: GlobOptions, i: nat, k: nat, ms: seq<Member>)
    requires i < |p| && p[i] == '[' && !Escapes(p, o, i) && k <= |p|
    requires ReadMembers(p, o, Body(p, i)) == Some((ms, k))
    requires Emit(p, o, Body(p, i), true) == PrintMembers(ms) + "]" + Emit(p, o, k, false)
    ensures Emit(p, o, i, false) ==
      (if Negates(p, i) then "[^" else "[") + PrintMembers(ms) + "]" + Emit(p, o, k, false)
    ensures Read(p, o, i) == Cons(Bracket(Negates(p, i), ms), Read(p, o, k))
  {
  }

  lemma ClassText(t: Token, text: string, r: Option<seq<Token>>, dot: bool)
    requires t.Bracket? && Printable(CompileToken(t, dot)) && TextOf(text, r, dot)
    ensures TextOf((if t.negated then "[^" else "[") + PrintMembers(t.members) + "]" + text, Cons(t, r), dot)
  {
    PrintSingle(Class(t.negated, t.members), Once);
    OneTokenText(t, text, r, dot);
    assert (if t.negated then "[^" else "[") + PrintMembers(t.members) + "]" + text ==
      Print(CompileToken(t, dot)) + text;
  }

  lemma UnclosedClass(negated: bool, body: string)
    requires body != "" && body[0] != '^' && ParseMembers(body) == None
    ensures ParseTerms((if negated then "[^" else "[") + body) == None
    ensures !StartsWithQuantifier((if negated then "[^" else "[") + body)
  {
    var s := (if negated then "[^" else "[") + body;
    assert s[if negated then 2 else 1..] == body;
    assert ParseAtom(s) == None;
  }

  /** The anchored text of a pattern parses to the pattern's expression; it is a syntax
      error exactly when a bracket is not closed or a range runs downwards. */
  lemma TextParses(p: string, o: GlobOptions)
    ensures ParseAnchored("^" + Emit(p, o, 0, false) + "$") == Compiled(p, o)
  {
    TokensText(p, o, 0);
    if Read(p, o, 0).Some? {
      AnchoredRoundTrip(Compile(Read(p, o, 0).value, o.dot));
    } else {
      AnchoredFails(Emit(p, o, 0, false));
    }
  }

  lemma AnchoredFails(text: string)
    requires ParseTerms(text + "$") == None
    ensures ParseAnchored("^" + text + "$") == None
  {
    assert ("^" + text + "$")[1..] == text + "$";
  }
}
