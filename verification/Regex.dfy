/** Regular expressions, as globs use them. */
module Regex {
  // The fragment of JavaScript's that rom/lib/glob.ts emits: its syntax trees, what they accept,
  // how they are printed, and a parser of the printed text that follows the grammar of ECMA-262,
  // section 22.2.1.  Printing a tree and parsing the text gives the tree back, which is what
  // escaping is for.

  import opened Options
  import opened Sequences

  /** A member of a character class.  `escaped` only records how it is printed. */
  datatype Member = Single(c: char, escaped: bool) | Hyphen

  datatype Quantifier = Once | Many | Maybe

  datatype Atom =
    | Lit(c: char)
    | Any
    | Class(negated: bool, members: seq<Member>)
    | Group(alts: Alts)

  /** A sequence of quantified atoms. */
  datatype Terms = End | Term(atom: Atom, q: Quantifier, rest: Terms)

  datatype Alts = Only(t: Terms) | Or(t: Terms, more: Alts)

  // ---------------------------------------------------------------------------
  // What a regular expression accepts

  /** The characters `.` does not match. */
  predicate IsLineTerminator(c: char) {
    c == '\n' || c == '\r' || c == '\U{2028}' || c == '\U{2029}'
  }

  function Value(m: Member): char {
    if m.Hyphen? then '-' else m.c
  }

  /** A hyphen with a member on each side spans a range; elsewhere it stands for itself. */
  predicate IsRange(members: seq<Member>) {
    |members| >= 3 && members[1].Hyphen?
  }

  predicate InMembers(members: seq<Member>, c: char) {
    if members == [] then false
    else if IsRange(members) then Value(members[0]) <= c <= Value(members[2]) || InMembers(members[3..], c)
    else Value(members[0]) == c || InMembers(members[1..], c)
  }

  /** Ranges run upwards. */
  predicate ValidMembers(members: seq<Member>) {
    if members == [] then true
    else if IsRange(members) then Value(members[0]) <= Value(members[2]) && ValidMembers(members[3..])
    else ValidMembers(members[1..])
  }

  ghost predicate AtomAccepts(a: Atom, s: string)
    decreases a, 0, 0
  {
    match a
    case Lit(c) => s == [c]
    case Any => |s| == 1 && !IsLineTerminator(s[0])
    case Class(negated, members) => |s| == 1 && InMembers(members, s[0]) != negated
    case Group(alts) => AltsAccept(alts, s)
  }

  ghost predicate AltsAccept(alts: Alts, s: string)
    decreases alts, 0, 0
  {
    match alts
    case Only(t) => Accepts(t, s)
    case Or(t, more) => Accepts(t, s) || AltsAccept(more, s)
  }

  /** s is a concatenation of strings the atom accepts. */
  ghost predicate ManyAccepts(a: Atom, s: string)
    decreases a, 1, |s|
  {
    s == "" || exists k :: 0 < k <= |s| && AtomAccepts(a, s[..k]) && ManyAccepts(a, s[k..])
  }

  ghost predicate QuantAccepts(a: Atom, q: Quantifier, s: string)
    decreases a, 2, 0
  {
    match q
    case Once => AtomAccepts(a, s)
    case Many => ManyAccepts(a, s)
    case Maybe => s == "" || AtomAccepts(a, s)
  }

  /** The whole of s matches the terms. */
  ghost predicate Accepts(t: Terms, s: string)
    decreases t, 0, 0
  {
    match t
    case End => s == ""
    case Term(a, q, rest) => exists k :: 0 <= k <= |s| && QuantAccepts(a, q, s[..k]) && Accepts(rest, s[k..])
  }

  function Append(s: Terms, t: Terms): Terms {
    match s
    case End => t
    case Term(a, q, rest) => Term(a, q, Append(rest, t))
  }

  ghost predicate AcceptsBoth(t: Terms, u: Terms, s: string) {
    exists k :: 0 <= k <= |s| && Accepts(t, s[..k]) && Accepts(u, s[k..])
  }

  lemma BothAfter(a: Atom, q: Quantifier, t: Terms, u: Terms, s: string, j: nat)
    requires j <= |s| && QuantAccepts(a, q, s[..j]) && AcceptsBoth(t, u, s[j..])
    ensures AcceptsBoth(Term(a, q, t), u, s)
  {
    var k :| 0 <= k <= |s[j..]| && Accepts(t, s[j..][..k]) && Accepts(u, s[j..][k..]);
    var head := s[..j + k];
    assert s[j..][k..] == s[j + k..];
    assert Accepts(Term(a, q, t), head) by {
      assert head[..j] == s[..j] && head[j..] == s[j..][..k];
    }
  }

  lemma BothBefore(a: Atom, q: Quantifier, t: Terms, u: Terms, s: string) returns (j: nat)
    requires AcceptsBoth(Term(a, q, t), u, s)
    ensures j <= |s| && QuantAccepts(a, q, s[..j]) && AcceptsBoth(t, u, s[j..])
  {
    var k :| 0 <= k <= |s| && Accepts(Term(a, q, t), s[..k]) && Accepts(u, s[k..]);
    j :| 0 <= j <= |s[..k]| && QuantAccepts(a, q, s[..k][..j]) && Accepts(t, s[..k][j..]);
    assert s[..k][..j] == s[..j] && s[..k][j..] == s[j..][..k - j] && s[j..][k - j..] == s[k..];
  }

  /** Terms one after the other accept what they accept piece by piece. */
  lemma {:induction false} AppendAccepts(t: Terms, u: Terms, s: string)
    ensures Accepts(Append(t, u), s) <==> AcceptsBoth(t, u, s)
  {
    match t {
      case End =>
        assert s[0..] == s;
      case Term(a, q, rest) =>
        if Accepts(Append(t, u), s) {
          var j :| 0 <= j <= |s| && QuantAccepts(a, q, s[..j]) && Accepts(Append(rest, u), s[j..]);
          AppendAccepts(rest, u, s[j..]);
          BothAfter(a, q, rest, u, s, j);
        }
        if AcceptsBoth(t, u, s) {
          var j := BothBefore(a, q, rest, u, s);
          AppendAccepts(rest, u, s[j..]);
        }
    }
  }

  // ---------------------------------------------------------------------------
  // Printing

  /** The characters escapeRegex puts a backslash before. */
  predicate IsSpecial(c: char) {
    c in ".*+?^${}()|[]\\"
  }

  /** escapeRegex, for the one character it is always called with. */
  function EscapeRegex(c: char): string {
    if IsSpecial(c) then ['\\', c] else [c]
  }

  function PrintMember(m: Member): string {
    if m.Hyphen? then "-" else if m.escaped then ['\\', m.c] else [m.c]
  }

  function PrintMembers(members: seq<Member>): string {
    if members == [] then "" else PrintMember(members[0]) + PrintMembers(members[1..])
  }

  function PrintAtom(a: Atom): string {
    match a
    case Lit(c) => EscapeRegex(c)
    case Any => "."
    case Class(negated, members) => (if negated then "[^" else "[") + PrintMembers(members) + "]"
    case Group(alts) => "(?:" + PrintAlts(alts) + ")"
  }

  function PrintQuantifier(q: Quantifier): string {
    match q
    case Once => ""
    case Many => "*"
    case Maybe => "?"
  }

  function Print(t: Terms): string {
    match t
    case End => ""
    case Term(a, q, rest) => PrintAtom(a) + PrintQuantifier(q) + Print(rest)
  }

  function PrintAlts(alts: Alts): string {
    match alts
    case Only(t) => Print(t)
    case Or(t, more) => Print(t) + "|" + PrintAlts(more)
  }

  lemma {:induction false} PrintAppend(t: Terms, u: Terms)
    ensures Print(Append(t, u)) == Print(t) + Print(u)
  {
    match t {
      case End =>
      case Term(_, _, rest) => PrintAppend(rest, u);
    }
  }

  // ---------------------------------------------------------------------------
  // Parsing

  predicate IsWordChar(c: char) {
    'a' <= c <= 'z' || 'A' <= c <= 'Z' || '0' <= c <= '9' || c == '_'
  }

  /** The members of a class up to its closing bracket, and the text after it.  None when
      the class is not closed, or holds an escape that is not an identity escape. */
  function ParseMembers(s: string): (r: Option<(seq<Member>, string)>)
    ensures r.Some? ==> |r.value.1| < |s|
  {
    if s == "" then None
    else if s[0] == ']' then Some(([], s[1..]))
    else if s[0] == '\\' then
      if |s| < 2 || IsWordChar(s[1]) then None
      else WithMember(Single(s[1], true), ParseMembers(s[2..]))
    else WithMember(if s[0] == '-' then Hyphen else Single(s[0], false), ParseMembers(s[1..]))
  }

  function WithMember(m: Member, r: Option<(seq<Member>, string)>): Option<(seq<Member>, string)> {
    if r.None? then None else Some(([m] + r.value.0, r.value.1))
  }

  /** Does a sequence of terms stop here? */
  predicate Stops(s: string) {
    s == "" || s[0] == '|' || s[0] == ')' || s[0] == '$'
  }

  predicate StartsWithQuantifier(s: string) {
    s != "" && (s[0] == '*' || s[0] == '?' || s[0] == '+' || s[0] == '{')
  }

  function ParseAtom(s: string): (r: Option<(Atom, string)>)
    requires !Stops(s)
    ensures r.Some? ==> |r.value.1| < |s|
    decreases |s|, 0
  {
    if StartsWithQuantifier(s) || s[0] == '^' then None
    else if s[0] == '.' then Some((Any, s[1..]))
    else if s[0] == '\\' then
      if |s| < 2 || IsWordChar(s[1]) then None else Some((Lit(s[1]), s[2..]))
    else if s[0] == '[' then
      var negated := |s| > 1 && s[1] == '^';
      var r := ParseMembers(s[if negated then 2 else 1..]);
      if r.None? || !ValidMembers(r.value.0) then None else Some((Class(negated, r.value.0), r.value.1))
    else if s[0] == '(' then
      if |s| < 3 || s[1] != '?' || s[2] != ':' then None
      else
        var r := ParseAlts(s[3..]);
        if r.None? || r.value.1 == "" || r.value.1[0] != ')' then None
        else Some((Group(r.value.0), r.value.1[1..]))
    else Some((Lit(s[0]), s[1..]))
  }

  function ReadQuantifier(s: string): (q: Quantifier)
    ensures PrintQuantifier(q) <= s
  {
    if s == "" then Once else if s[0] == '*' then Many else if s[0] == '?' then Maybe else Once
  }

  function ParseTerms(s: string): (r: Option<(Terms, string)>)
    ensures r.Some? ==> |r.value.1| <= |s|
    decreases |s|, 1
  {
    if Stops(s) then Some((End, s))
    else
      var a := ParseAtom(s);
      if a.None? then None
      else
        var q := ReadQuantifier(a.value.1);
        var r := ParseTerms(a.value.1[|PrintQuantifier(q)|..]);
        if r.None? then None else Some((Term(a.value.0, q, r.value.0), r.value.1))
  }

  function ParseAlts(s: string): (r: Option<(Alts, string)>)
    ensures r.Some? ==> |r.value.1| <= |s|
    decreases |s|, 2
  {
    var t := ParseTerms(s);
    if t.None? then None
    else if t.value.1 == "" || t.value.1[0] != '|' then Some((Only(t.value.0), t.value.1))
    else
      var r := ParseAlts(t.value.1[1..]);
      if r.None? then None else Some((Or(t.value.0, r.value.0), r.value.1))
  }

  /** new RegExp(text) for a text anchored at both ends.  None is a SyntaxError. */
  function ParseAnchored(text: string): Option<Terms> {
    if text == "" || text[0] != '^' then None
    else
      var r := ParseTerms(text[1..]);
      if r.None? || r.value.1 != "$" then None else Some(r.value.0)
  }

  // ---------------------------------------------------------------------------
  // Parsing what was printed

  predicate IsPlainMember(c: char) {
    c != '\\' && c != ']' && c != '-'
  }

  /** Raw members are ones the class grammar reads as themselves, and escapes are identity
      escapes; a class that is not negated does not begin with a caret. */
  predicate PrintableMembers(members: seq<Member>) {
    forall k :: 0 <= k < |members| && members[k].Single? ==>
      if members[k].escaped then !IsWordChar(members[k].c) else IsPlainMember(members[k].c)
  }

  predicate PrintableAtom(a: Atom) {
    match a
    case Lit(_) => true
    case Any => true
    case Class(negated, members) =>
      && PrintableMembers(members)
      && (!negated && members != [] ==> members[0] != Single('^', false))
    case Group(alts) => PrintableAlts(alts)
  }

  predicate Printable(t: Terms) {
    match t
    case End => true
    case Term(a, _, rest) => PrintableAtom(a) && Printable(rest)
  }

  predicate PrintableAlts(alts: Alts) {
    match alts
    case Only(t) => Printable(t)
    case Or(t, more) => Printable(t) && PrintableAlts(more)
  }

  predicate ValidAtom(a: Atom) {
    match a
    case Lit(_) => true
    case Any => true
    case Class(_, members) => ValidMembers(members)
    case Group(alts) => ValidAlts(alts)
  }

  /** Every range in the expression runs upwards. */
  predicate Valid(t: Terms) {
    match t
    case End => true
    case Term(a, _, rest) => ValidAtom(a) && Valid(rest)
  }

  predicate ValidAlts(alts: Alts) {
    match alts
    case Only(t) => Valid(t)
    case Or(t, more) => Valid(t) && ValidAlts(more)
  }

  /** A printed member is read first. */
  lemma MemberFirst(m: Member, s: string)
    requires m.Single? ==> if m.escaped then !IsWordChar(m.c) else IsPlainMember(m.c)
    ensures ParseMembers(PrintMember(m) + s) == WithMember(m, ParseMembers(s))
  {
    var t := PrintMember(m) + s;
    if m.Single? && m.escaped {
      assert t[2..] == s;
    } else {
      assert t[1..] == s;
    }
  }

  lemma {:induction false} MembersRoundTrip(members: seq<Member>, rest: string)
    requires PrintableMembers(members)
    ensures ParseMembers(PrintMembers(members) + "]" + rest) == Some((members, rest))
  {
    var s := PrintMembers(members) + "]" + rest;
    if members == [] {
      assert s[1..] == rest;
    } else {
      var tail := PrintMembers(members[1..]) + "]" + rest;
      MembersRoundTrip(members[1..], rest);
      MemberFirst(members[0], tail);
      assert s == PrintMember(members[0]) + tail;
      assert [members[0]] + members[1..] == members;
    }
  }

  lemma ClassRoundTrip(negated: bool, members: seq<Member>, rest: string)
    requires PrintableAtom(Class(negated, members))
    ensures var s := PrintAtom(Class(negated, members)) + rest;
      !Stops(s) && !StartsWithQuantifier(s) &&
      ParseAtom(s) == if ValidMembers(members) then Some((Class(negated, members), rest)) else None
  {
    var body := PrintMembers(members) + "]" + rest;
    var s := (if negated then "[^" else "[") + body;
    MembersRoundTrip(members, rest);
    assert PrintAtom(Class(negated, members)) + rest == s;
    assert s[if negated then 2 else 1..] == body;
    assert !negated ==> body[0] != '^';
  }

  /** An atom's text is read as the atom, whatever follows; a class with a range that runs
      downwards is refused. */
  lemma {:induction false} AtomRoundTrip(a: Atom, rest: string)
    requires PrintableAtom(a)
    ensures var s := PrintAtom(a) + rest;
      !Stops(s) && !StartsWithQuantifier(s) && ParseAtom(s) == if ValidAtom(a) then Some((a, rest)) else None
    decreases a, 0
  {
    match a {
      case Lit(c) =>
      case Any =>
      case Class(negated, members) =>
        ClassRoundTrip(negated, members, rest);
      case Group(alts) =>
        AltsRoundTrip(alts, ")" + rest);
        GroupRoundTrip(alts, rest);
    }
  }

  lemma GroupRoundTrip(alts: Alts, rest: string)
    requires ParseAlts(PrintAlts(alts) + (")" + rest)) == if ValidAlts(alts) then Some((alts, ")" + rest)) else None
    ensures var s := PrintAtom(Group(alts)) + rest;
      !Stops(s) && !StartsWithQuantifier(s) &&
      ParseAtom(s) == if ValidAlts(alts) then Some((Group(alts), rest)) else None
  {
    var s := "(?:" + (PrintAlts(alts) + (")" + rest));
    assert PrintAtom(Group(alts)) + rest == s;
    assert s[3..] == PrintAlts(alts) + (")" + rest);
    assert (")" + rest)[1..] == rest;
  }

  /** What parsing terms in front of a text gives, from what parsing the text gives. */
  function Before(t: Terms, r: Option<(Terms, string)>): Option<(Terms, string)> {
    if r.None? || !Valid(t) then None else Some((Append(t, r.value.0), r.value.1))
  }

  lemma {:induction false} TermsRoundTrip(t: Terms, rest: string)
    requires Printable(t) && !StartsWithQuantifier(rest)
    ensures !StartsWithQuantifier(Print(t) + rest)
    ensures ParseTerms(Print(t) + rest) == Before(t, ParseTerms(rest))
    decreases t, 0
  {
    match t {
      case End =>
        assert Print(t) + rest == rest;
      case Term(a, q, more) =>
        TermsRoundTrip(more, rest);
        AtomRoundTrip(a, PrintQuantifier(q) + (Print(more) + rest));
        FirstTermOf(a, q, more, rest);
    }
  }

  lemma FirstTermOf(a: Atom, q: Quantifier, more: Terms, rest: string)
    requires !StartsWithQuantifier(Print(more) + rest)
    requires ParseTerms(Print(more) + rest) == Before(more, ParseTerms(rest))
    requires var tail := PrintQuantifier(q) + (Print(more) + rest);
      !Stops(PrintAtom(a) + tail) && !StartsWithQuantifier(PrintAtom(a) + tail) &&
      ParseAtom(PrintAtom(a) + tail) == if ValidAtom(a) then Some((a, tail)) else None
    ensures var t := Term(a, q, more);
      !StartsWithQuantifier(Print(t) + rest) && ParseTerms(Print(t) + rest) == Before(t, ParseTerms(rest))
  {
    var tail := Print(more) + rest;
    RegroupFour(PrintAtom(a), PrintQuantifier(q), Print(more), rest);
    FirstTerm(a, q, PrintAtom(a) + (PrintQuantifier(q) + tail), tail);
  }

  /** Parsing a text that begins with a quantified atom. */
  lemma FirstTerm(a: Atom, q: Quantifier, s: string, tail: string)
    requires !Stops(s) && !StartsWithQuantifier(tail)
    requires ParseAtom(s) == if ValidAtom(a) then Some((a, PrintQuantifier(q) + tail)) else None
    ensures ParseTerms(s) ==
      var r := ParseTerms(tail);
      if r.None? || !ValidAtom(a) then None else Some((Term(a, q, r.value.0), r.value.1))
  {
    QuantifierRoundTrip(q, tail);
  }

  lemma QuantifierRoundTrip(q: Quantifier, tail: string)
    requires !StartsWithQuantifier(tail)
    ensures ReadQuantifier(PrintQuantifier(q) + tail) == q
    ensures (PrintQuantifier(q) + tail)[|PrintQuantifier(q)|..] == tail
  {
  }

  lemma {:induction false} AltsRoundTrip(alts: Alts, rest: string)
    requires PrintableAlts(alts) && rest != "" && rest[0] == ')'
    ensures ParseAlts(PrintAlts(alts) + rest) == if ValidAlts(alts) then Some((alts, rest)) else None
    decreases alts, 0
  {
    match alts {
      case Only(t) =>
        TermsRoundTrip(t, rest);
        AppendEnd(t);
      case Or(t, more) =>
        TermsRoundTrip(t, "|" + (PrintAlts(more) + rest));
        AppendEnd(t);
        AltsRoundTrip(more, rest);
        FirstAlternative(t, more, rest);
    }
  }

  lemma FirstAlternative(t: Terms, more: Alts, rest: string)
    requires Append(t, End) == t
    requires var tail := "|" + (PrintAlts(more) + rest); ParseTerms(Print(t) + tail) == Before(t, ParseTerms(tail))
    requires ParseAlts(PrintAlts(more) + rest) == if ValidAlts(more) then Some((more, rest)) else None
    ensures ParseAlts(PrintAlts(Or(t, more)) + rest) ==
      if ValidAlts(Or(t, more)) then Some((Or(t, more), rest)) else None
  {
    var tail := "|" + (PrintAlts(more) + rest);
    RegroupFour(Print(t), "|", PrintAlts(more), rest);
    assert tail[1..] == PrintAlts(more) + rest;
  }

  lemma {:induction false} AppendEnd(t: Terms)
    ensures Append(t, End) == t
  {
    match t {
      case End =>
      case Term(_, _, rest) => AppendEnd(rest);
    }
  }

  /** The anchored text of an expression parses back to it; it is a syntax error exactly
      when a range runs downwards. */
  lemma {:induction false} AnchoredRoundTrip(t: Terms)
    requires Printable(t)
    ensures ParseAnchored("^" + Print(t) + "$") == if Valid(t) then Some(t) else None
  {
    var text := "^" + Print(t) + "$";
    assert text[1..] == Print(t) + "$";
    TermsRoundTrip(t, "$");
    AppendEnd(t);
  }
}
