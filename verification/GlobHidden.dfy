/** Globs and hidden names. */
module GlobHidden {
  // Which globs let hidden names through when `dot` is off: the option promises that wildcards
  // match names with a leading dot only when it is on.  The wildcards that can take such a dot,
  // or nothing before one, decide when that fails.

  import opened Options
  import opened Regex
  import opened Text
  import opened Glob
  import opened GlobMeaning
  import opened GlobSegments
  import opened GlobPatterns

  predicate IsHidden(s: string) {
    s != "" && s[0] == '.'
  }

  predicate HasHidden(path: string) {
    exists k :: 0 <= k < |Split(path, '/')| && IsHidden(Split(path, '/')[k])
  }

  /** May a text the token takes begin with a dot? */
  predicate MayTakeDot(t: Token) {
    match t
    case Char(c) => c == '.'
    case Bracket(negated, members) => InMembers(members, '.') != negated
    case One(leading) => !leading
    case Star(leading) => !leading
    case DoubleStar => true
    case Globstar => true
    case GlobstarEnd => false
  }

  /** May the token take nothing? */
  predicate MayTakeNothing(t: Token) {
    t.Star? || t.DoubleStar? || t.Globstar? || t.GlobstarEnd?
  }

  /** May a text the tokens match begin with a dot? */
  predicate MayHide(ts: seq<Token>) {
    ts != [] && (MayTakeDot(ts[0]) || (MayTakeNothing(ts[0]) && MayHide(ts[1..])))
  }

  // ---------------------------------------------------------------------------
  // The first character

  lemma TakesDotFirst(t: Token, s: string)
    requires Takes(t, s, false) && IsHidden(s)
    ensures MayTakeDot(t)
  {
  }

  lemma {:induction false} HiddenIsMayHide(ts: seq<Token>, s: string)
    requires GlobMatch(ts, s, false) && IsHidden(s)
    ensures MayHide(ts)
    decreases |ts|
  {
    if ts != [] {
      var k :| 0 <= k <= |s| && Takes(ts[0], s[..k], false) && GlobMatch(ts[1..], s[k..], false);
      if k == 0 {
        assert s[0..] == s;
        HiddenIsMayHide(ts[1..], s);
      } else {
        assert s[..k][0] == s[0];
        TakesDotFirst(ts[0], s[..k]);
      }
    }
  }

  lemma JoinTaken(ts: seq<Token>, a: string, b: string)
    requires ts != [] && Takes(ts[0], a, false) && GlobMatch(ts[1..], b, false)
    ensures GlobMatch(ts, a + b, false)
  {
    assert (a + b)[..|a|] == a && (a + b)[|a|..] == b;
  }

  lemma HiddenFolder()
    ensures AreWholeSegments(".g/", false)
  {
    assert ".g/"[..2] == ".g";
    SplitPlain(".g", '/');
  }

  /** A text with a leading dot that the tokens match. */
  lemma {:induction false} HiddenWitness(ts: seq<Token>) returns (s: string)
    requires Inhabited(ts) && MayHide(ts)
    ensures IsHidden(s) && GlobMatch(ts, s, false)
    ensures (forall k :: 0 <= k < |ts| ==> StaysInSegment(ts[k])) ==> '/' !in s
    decreases |ts|
  {
    var rest := ts[1..];
    assert Inhabited(rest);
    if MayTakeDot(ts[0]) {
      var first := if ts[0].Globstar? then ".g/" else ".";
      HiddenFolder();
      WitnessMatches(rest, false);
      JoinTaken(ts, first, Witness(rest));
      s := first + Witness(rest);
      if forall k :: 0 <= k < |ts| ==> StaysInSegment(ts[k]) {
        WitnessStaysInSegment(rest);
      }
    } else {
      s := HiddenWitness(rest);
      JoinTaken(ts, "", s);
      assert "" + s == s;
    }
  }

  lemma {:induction false} WitnessStaysInSegment(ts: seq<Token>)
    requires Inhabited(ts) && forall k :: 0 <= k < |ts| ==> StaysInSegment(ts[k])
    ensures '/' !in Witness(ts)
  {
    if ts != [] {
      WitnessStaysInSegment(ts[1..]);
      assert '/' !in Least(ts[0]);
    }
  }

  /** Without `dot`, tokens match some text with a leading dot exactly when they may hide and no
      bracket is empty. */
  lemma HidesIff(ts: seq<Token>)
    ensures Inhabited(ts) && MayHide(ts) <==> exists s :: IsHidden(s) && GlobMatch(ts, s, false)
  {
    if Inhabited(ts) && MayHide(ts) {
      var s := HiddenWitness(ts);
    }
    if s :| IsHidden(s) && GlobMatch(ts, s, false) {
      MatchedIsInhabited(ts, s, false);
      HiddenIsMayHide(ts, s);
    }
  }

  /** The same for patterns: without `dot`, match accepts some path with a leading dot exactly when
      the tokens may hide and no bracket is empty. */
  lemma HiddenPathIff(pattern: string, o: GlobOptions)
    requires !o.dot && Read(pattern, o, 0).Some? && ValidBrackets(Read(pattern, o, 0).value)
    ensures var tokens := Read(pattern, o, 0).value;
      Inhabited(tokens) && MayHide(tokens) <==> exists path :: IsHidden(path) && Match(path, pattern, o) == Some(true)
  {
    var tokens := Read(pattern, o, 0).value;
    HidesIff(tokens);
    forall path ensures Match(path, pattern, o) == Some(true) <==> GlobMatch(tokens, path, false) {
      MatchIsGlobMatch(path, pattern, o);
    }
  }

  // ---------------------------------------------------------------------------
  // Every segment

  /** May a segment the component passes or matches be hidden? */
  predicate MayHideIn(c: Component) {
    c.Plain? ==> MayHide(c.tokens)
  }

  lemma {:induction false} HiddenHasComponent(cs: seq<Component>, segments: seq<string>, k: nat)
    requires SegmentMatch(cs, segments, false) && k < |segments| && IsHidden(segments[k])
    ensures exists i :: 0 <= i < |cs| && MayHideIn(cs[i])
    decreases |cs|
  {
    if cs[0].Plain? {
      if k == 0 {
        HiddenIsMayHide(cs[0].tokens, segments[0]);
        assert MayHideIn(cs[0]);
      } else {
        HiddenHasComponent(cs[1..], segments[1..], k - 1);
        var i :| 0 <= i < |cs[1..]| && MayHideIn(cs[1..][i]);
        assert MayHideIn(cs[i + 1]);
      }
    } else {
      assert MayHideIn(cs[0]);
    }
  }

  /** Components with tokens that stay inside a segment and accept something. */
  ghost predicate Fillable(cs: seq<Component>) {
    forall i :: 0 <= i < |cs| && cs[i].Plain? ==>
      Inhabited(cs[i].tokens) && forall k :: 0 <= k < |cs[i].tokens| ==> StaysInSegment(cs[i].tokens[k])
  }

  predicate NoSlashes(segments: seq<string>) {
    forall k :: 0 <= k < |segments| ==> '/' !in segments[k]
  }

  /** Segments the components match, whatever segments more a last `**` is to take. */
  lemma {:induction false} Filled(cs: seq<Component>) returns (segments: seq<string>)
    requires cs != [] && !cs[|cs| - 1].Deep? && EndsDeep(cs) && Fillable(cs)
    ensures segments != [] && NoSlashes(segments) && SegmentMatch(cs, segments, false)
    decreases |cs|
  {
    match cs[0] {
      case Plain(tokens) =>
        WitnessMatches(tokens, false);
        WitnessStaysInSegment(tokens);
        segments := [Witness(tokens)];
        if |cs| > 1 {
          var more := Filled(cs[1..]);
          segments := segments + more;
          assert segments[1..] == more;
        } else {
          assert segments[1..] == [] && cs[1..] == [];
        }
      case Deep =>
        segments := Filled(cs[1..]);
        assert segments[0..] == segments;
      case DeepEnd =>
        segments := [""];
    }
  }

  /** The same with a hidden segment at a component that lets one through. */
  lemma {:induction false} FilledHidden(cs: seq<Component>, i: nat) returns (segments: seq<string>)
    requires cs != [] && !cs[|cs| - 1].Deep? && EndsDeep(cs) && Fillable(cs)
    requires i < |cs| && MayHideIn(cs[i])
    ensures segments != [] && NoSlashes(segments) && SegmentMatch(cs, segments, false)
    ensures exists k :: 0 <= k < |segments| && IsHidden(segments[k])
    decreases |cs|
  {
    if i > 0 {
      var more := FilledHidden(cs[1..], i - 1);
      segments := BeforeFilled(cs, more);
    } else {
      match cs[0] {
        case Plain(tokens) =>
          var s := HiddenWitness(tokens);
          segments := [s];
          if |cs| > 1 {
            var more := Filled(cs[1..]);
            segments := segments + more;
            assert segments[1..] == more;
          } else {
            assert segments[1..] == [] && cs[1..] == [];
          }
          assert IsHidden(segments[0]);
        case Deep =>
          var more := Filled(cs[1..]);
          segments := [".g"] + more;
          assert segments[1..] == more && IsHidden(segments[0]);
        case DeepEnd =>
          segments := ["a", ".g"];
          assert segments[1..] == [".g"];
          assert Join(segments, '/') == "a/.g";
          assert IsHidden(segments[1]);
      }
    }
  }

  lemma BeforeFilled(cs: seq<Component>, more: seq<string>) returns (segments: seq<string>)
    requires |cs| > 1 && Fillable(cs) && EndsDeep(cs) && SegmentMatch(cs[1..], more, false) && NoSlashes(more)
    ensures SegmentMatch(cs, segments, false) && NoSlashes(segments) && |segments| >= |more|
    ensures forall k :: 0 <= k < |more| ==> segments[k + |segments| - |more|] == more[k]
  {
    if cs[0].Plain? {
      WitnessMatches(cs[0].tokens, false);
      WitnessStaysInSegment(cs[0].tokens);
      segments := [Witness(cs[0].tokens)] + more;
      assert segments[1..] == more;
    } else {
      segments := more;
      assert segments[0..] == segments;
    }
  }

  lemma FillableCons(c: Component, cs: seq<Component>)
    requires Fillable(cs) && (c.Plain? ==> Fillable([c]))
    ensures Fillable([c] + cs)
  {
    assert [c][0] == c;
  }

  lemma FillablePlain(t: Token, cs: seq<Component>)
    requires cs != [] && cs[0].Plain? && Fillable(cs)
    requires StaysInSegment(t) && (t.Bracket? ==> exists c :: Takes(t, [c], false))
    ensures Fillable([Plain([t] + cs[0].tokens)] + cs[1..])
  {
    var u := cs[0].tokens;
    InhabitedCons(t, u);
    assert forall k :: 1 <= k < |[t] + u| ==> ([t] + u)[k] == u[k - 1];
    assert forall i :: 0 <= i < |cs[1..]| ==> cs[1..][i] == cs[i + 1];
    FillableCons(Plain([t] + u), cs[1..]);
  }

  lemma {:induction false} ComponentsAreFillable(tokens: seq<Token>)
    requires WellPlaced(tokens) && NoSlashBracket(tokens) && Inhabited(tokens)
    ensures Fillable(Components(tokens))
  {
    if tokens != [] {
      var t, rest := tokens[0], tokens[1..];
      assert forall k :: 0 <= k < |rest| ==> rest[k] == tokens[k + 1];
      ComponentsAreFillable(rest);
      if t == Char('/') || t.Globstar? {
        FillableCons(if t.Globstar? then Deep else Plain([]), Components(rest));
      } else if !t.GlobstarEnd? {
        FirstIsPlain(rest);
        FillablePlain(t, Components(rest));
      }
    }
  }

  /** Without `dot`, and with no bracket that accepts a slash, some path with a hidden segment
      matches exactly when the pattern holds a `**` of its own or a component that may hide. */
  lemma HiddenSegmentIff(pattern: string, o: GlobOptions)
    requires !o.dot && Read(pattern, o, 0).Some?
    requires var tokens := Read(pattern, o, 0).value; ValidBrackets(tokens) && NoSlashBracket(tokens)
    ensures var tokens := Read(pattern, o, 0).value; var cs := Components(tokens);
      (exists path :: HasHidden(path) && Match(path, pattern, o) == Some(true))
        <==> Inhabited(tokens) && exists i :: 0 <= i < |cs| && MayHideIn(cs[i])
  {
    var tokens := Read(pattern, o, 0).value;
    var cs := Components(tokens);
    ReadIsWellPlaced(pattern, o, 0);
    if path :| HasHidden(path) && Match(path, pattern, o) == Some(true) {
      MatchIsSegmentwise(path, pattern, o);
      var segments := Split(path, '/');
      var k :| 0 <= k < |segments| && IsHidden(segments[k]);
      SegmentMatchedIsInhabited(tokens, segments, false);
      HiddenHasComponent(cs, segments, k);
    }
    if Inhabited(tokens) && exists i :: 0 <= i < |cs| && MayHideIn(cs[i]) {
      var i :| 0 <= i < |cs| && MayHideIn(cs[i]);
      ComponentsAreFillable(tokens);
      DeepEndIsLast(tokens);
      var segments := FilledHidden(cs, i);
      var path := Join(segments, '/');
      SplitOfJoin(segments, '/');
      MatchIsSegmentwise(path, pattern, o);
      assert HasHidden(path);
    }
  }

  // ---------------------------------------------------------------------------
  // Patterns that show it

  lemma OneHiddenSegment(x: string)
    ensures var path := ".g/" + x; Around(path, "", x) && Middle(path, "", x) == ".g/"
    ensures ".g/"[..2] == ".g" && Split(".g", '/') == [".g"]
  {
    SplitPlain(".g", '/');
  }

  lemma HiddenBeforeName(x: string, o: GlobOptions)
    requires IsText(o, x)
    ensures Match(".g/" + x, "**/" + x, o) == Some(true)
  {
    GlobstarBetween("", x, ".g/" + x, o);
    assert "" + "**/" + x == "**/" + x;
    OneHiddenSegment(x);
  }

  /** Hidden paths each of these patterns accepts. */
  lemma HiddenPaths(x: string, o: GlobOptions)
    requires IsText(o, x) && x != "" && x[0] != '/' && !o.dot
    ensures Match(x, "*" + x, o) == Some(true)
    ensures Match("." + x, "**" + x, o) == Some(true)
    ensures Match(".g/" + x, "**/" + x, o) == Some(true)
  {
    StarBetween("", x, x, o);
    DoubleStarBetween("", x, "." + x, o);
    assert "" + "*" + x == "*" + x && "" + "**" + x == "**" + x && Middle("." + x, "", x) == ".";
    HiddenBeforeName(x, o);
  }

  /** The first of them with a name of its own that is hidden. */
  lemma DotFileMatches(o: GlobOptions)
    requires !o.dot
    ensures Match(".ts", "*.ts", o) == Some(true)
  {
    var x := ".ts";
    assert "*" + x == "*.ts";
    HiddenPaths(x, o);
  }
}
