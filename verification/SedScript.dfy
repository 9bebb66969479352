/** Reading sed commands, from rom/bin/sed.ts. */
module SedScript {
  // parseAddress, findClosingDelimiter and parseCommand, with a writer whose commands they read
  // back.

  import opened Numbers
  import opened Options
  import opened Sed
  import opened Sequences
  import opened Text

  // ---------------------------------------------------------------------------
  // Delimiters

  /** The first place from i on with an unescaped delimiter, or -1. */
  function Scan(s: string, delim: char, i: nat, escaped: bool): int
    requires i <= |s|
    decreases |s| - i
  {
    if i == |s| then -1
    else if escaped then Scan(s, delim, i + 1, false)
    else if s[i] == '\\' then Scan(s, delim, i + 1, true)
    else if s[i] == delim then i
    else Scan(s, delim, i + 1, false)
  }

  function Closing(s: string, delim: char, start: nat): int {
    if start < |s| then Scan(s, delim, start + 1, false) else -1
  }

  method FindClosingDelimiter(s: string, delim: char, start: nat) returns (r: int)
    ensures r == Closing(s, delim, start)
  {
    var escaped, i := false, start + 1;
    while i < |s|
      invariant start < |s| ==> i <= |s| && Scan(s, delim, i, escaped) == Closing(s, delim, start)
    {
      if escaped {
        escaped := false;
      } else if s[i] == '\\' {
        escaped := true;
      } else if s[i] == delim {
        return i;
      }
      i := i + 1;
    }
    return -1;
  }

  /** The backslashes directly before place i, from a place on. */
  function Backslashes(s: string, from: nat, i: nat): nat
    requires from <= i <= |s|
    decreases i
  {
    if i > from && s[i - 1] == '\\' then Backslashes(s, from, i - 1) + 1 else 0
  }

  /** Preceded by an odd number of backslashes. */
  predicate Escaped(s: string, from: nat, i: nat)
    requires from <= i <= |s|
  {
    Backslashes(s, from, i) % 2 == 1
  }

  /** The delimiter found is the first one after the start that has an even number of
      backslashes before it; a backslash never is. */
  lemma {:induction false} ScanFinds(s: string, delim: char, from: nat, i: nat)
    requires from <= i <= |s|
    ensures var r := Scan(s, delim, i, Escaped(s, from, i));
      && (r == -1 || i <= r < |s|)
      && (r >= 0 ==> s[r] == delim != '\\' && !Escaped(s, from, r))
      && forall k :: i <= k < (if r >= 0 then r else |s|) ==> !(s[k] == delim != '\\' && !Escaped(s, from, k))
    decreases |s| - i
  {
    if i < |s| {
      ScanFinds(s, delim, from, i + 1);
    }
  }

  /** Can this text stand between two such delimiters? */
  predicate Closed(p: string, delim: char) {
    && (forall k :: 0 <= k < |p| && p[k] == delim ==> Escaped(p, 0, k))
    && !Escaped(p, 0, |p|)
  }

  lemma {:induction false} BackslashesInside(before: string, p: string, after: string, k: nat)
    requires k <= |p|
    ensures Backslashes(before + p + after, |before|, |before| + k) == Backslashes(p, 0, k)
    decreases k
  {
    if k > 0 {
      BackslashesInside(before, p, after, k - 1);
      assert (before + p + after)[|before| + k - 1] == p[k - 1];
    }
  }

  lemma Pieces(before: string, delim: char, p: string, rest: string)
    ensures var s := before + [delim] + p + [delim] + rest;
      s == (before + [delim]) + p + ([delim] + rest) && s[|before| + 1 + |p|] == delim
  {
  }

  /** A text between delimiters is found again exactly when it is closed. */
  lemma ClosingIff(before: string, delim: char, p: string, rest: string)
    requires delim != '\\'
    ensures Closing(before + [delim] + p + [delim] + rest, delim, |before|) == |before| + 1 + |p| <==> Closed(p, delim)
  {
    var s, from := before + [delim] + p + [delim] + rest, |before| + 1;
    Pieces(before, delim, p, rest);
    forall k: nat | k <= |p| ensures Escaped(s, from, from + k) == Escaped(p, 0, k) {
      BackslashesInside(before + [delim], p, [delim] + rest, k);
    }
    assert Escaped(s, from, from + |p|) == Escaped(p, 0, |p|);
    forall k | 0 <= k < |p| ensures p[k] == s[from + k] && Escaped(s, from, from + k) == Escaped(p, 0, k) {
    }
    AtTheEndIff(s, delim, from, p);
  }

  lemma AtTheEndIff(s: string, delim: char, from: nat, p: string)
    requires delim != '\\' && 0 < from && from + |p| < |s| && s[from + |p|] == delim
    requires Escaped(s, from, from + |p|) == Escaped(p, 0, |p|)
    requires forall k :: 0 <= k < |p| ==> p[k] == s[from + k] && Escaped(s, from, from + k) == Escaped(p, 0, k)
    ensures Scan(s, delim, from, false) == from + |p| <==> Closed(p, delim)
  {
    ScanFinds(s, delim, from, from);
    var r := Scan(s, delim, from, false);
    if r == from + |p| {
      forall k | 0 <= k < |p| && p[k] == delim ensures Escaped(p, 0, k) {
        assert s[from + k] == delim;
      }
    } else if from <= r < from + |p| {
      assert p[r - from] == s[r];
    }
  }

  // ---------------------------------------------------------------------------
  // Addresses

  /** /^\d+/ */
  function Digits(s: string): (d: string)
    ensures d <= s && AllDigits(d) && (|d| < |s| ==> !IsDigit(s[|d|]))
  {
    if s == "" || !IsDigit(s[0]) then "" else [s[0]] + Digits(s[1..])
  }

  /** What follows a number: a step, or something else. */
  function AfterNumber(n: nat, rest: string): (Option<Address>, string) {
    var step := if "~" <= rest then Digits(rest[1..]) else "";
    if step != "" then (Some(Step(n, Numeral(step))), rest[1 + |step|..]) else (Some(Line(n)), rest)
  }

  function ParseAddress(g: Engine, s: string): (Option<Address>, string) {
    var digits := Digits(s);
    if digits != "" then AfterNumber(Numeral(digits), s[|digits|..])
    else if "$" <= s then (Some(Last), s[1..])
    else if "/" <= s then
      var end := Closing(s, '/', 0);
      if end == -1 then (None, s)
      else
        SlashIsInside(s);
        if g.compiles(s[1..end]) then (Some(Regex(s[1..end])), s[end + 1..]) else (None, s)
    else (None, s)
  }

  lemma SlashIsInside(s: string)
    requires s != "" && Closing(s, '/', 0) != -1
    ensures 1 <= Closing(s, '/', 0) < |s|
  {
    ScanFinds(s, '/', 1, 1);
  }

  function WrittenAddress(a: Address): string {
    match a
    case Line(n) => Decimal(n)
    case Last => "$"
    case Regex(pattern) => "/" + pattern + "/"
    case Step(first, step) => Decimal(first) + "~" + Decimal(step)
  }

  /** A pattern that compiles, with its slashes escaped. */
  predicate Sound(g: Engine, a: Address) {
    a.Regex? ==> g.compiles(a.pattern) && Closed(a.pattern, '/')
  }

  lemma {:induction false} DigitsOf(d: string, rest: string)
    requires AllDigits(d) && (rest == "" || !IsDigit(rest[0]))
    ensures Digits(d + rest) == d
  {
    if d == "" {
      assert d + rest == rest;
    } else {
      assert (d + rest)[1..] == d[1..] + rest;
      DigitsOf(d[1..], rest);
    }
  }

  lemma NumberIsRead(g: Engine, n: nat, rest: string)
    requires rest == "" || !IsDigit(rest[0])
    ensures ParseAddress(g, Decimal(n) + rest) == AfterNumber(n, rest)
  {
    DigitsOf(Decimal(n), rest);
    DecimalIsRead(n);
    assert (Decimal(n) + rest)[|Decimal(n)|..] == rest;
  }

  lemma TildeFirst(a: string, b: string)
    ensures var s := "~" + a + b; s[0] == '~' && s[1..] == a + b && s[1 + |a|..] == b
  {
  }

  lemma StepIsRead(n: nat, step: nat, rest: string)
    requires rest == "" || !IsDigit(rest[0])
    ensures AfterNumber(n, "~" + Decimal(step) + rest) == (Some(Step(n, step)), rest)
  {
    var d := Decimal(step);
    DigitsOf(d, rest);
    DecimalIsRead(step);
    TildeFirst(d, rest);
  }

  lemma PatternIsRead(g: Engine, pattern: string, rest: string)
    requires Sound(g, Regex(pattern))
    ensures ParseAddress(g, "/" + pattern + "/" + rest) == (Some(Regex(pattern)), rest)
  {
    var s := "/" + pattern + "/" + rest;
    assert s == "" + ['/'] + pattern + ['/'] + rest;
    ClosingIff("", '/', pattern, rest);
    assert s[0] == '/';
    assert s[1..1 + |pattern|] == pattern && s[|pattern| + 2..] == rest;
  }

  lemma AddressIsRead(g: Engine, a: Address, rest: string)
    requires Sound(g, a) && rest != "" && !IsDigit(rest[0]) && rest[0] != '~'
    ensures ParseAddress(g, WrittenAddress(a) + rest) == (Some(a), rest)
  {
    match a {
      case Line(n) => NumberIsRead(g, n, rest);
      case Last => assert ("$" + rest)[1..] == rest;
      case Regex(pattern) => PatternIsRead(g, pattern, rest);
      case Step(first, step) =>
        var tail := "~" + Decimal(step) + rest;
        RegroupFour(Decimal(first), "~", Decimal(step), rest);
        NumberIsRead(g, first, tail);
        StepIsRead(first, step, rest);
    }
  }

  // ---------------------------------------------------------------------------
  // Commands

  function Trim(s: string): string {
    if s == "" then ""
    else if IsSpace(s[0]) then Trim(s[1..])
    else if IsSpace(s[|s| - 1]) then Trim(s[..|s| - 1])
    else s
  }

  /** Two texts between three delimiters, the last of which may be missing, and what follows. */
  function ParseTwo(s: string): Option<(string, string, string)> {
    if s == "" then None
    else
      var delim := s[0];
      ScanFinds(s, delim, 1, 1);
      var mid := Closing(s, delim, 0);
      if mid == -1 then None
      else
        ScanFinds(s, delim, mid + 1, mid + 1);
        var end := Closing(s, delim, mid);
        if end == -1 then Some((s[1..mid], s[mid + 1..], ""))
        else Some((s[1..mid], s[mid + 1..end], s[end + 1..]))
  }

  function Paired(a: string, b: string): string {
    a + "\0" + b
  }

  function ParseAction(address: Option<Address>, address2: Option<Address>, s: string): Option<Command> {
    if s == "" then None
    else
      var cmd, rest := s[0], s[1..];
      if cmd == 's' then
        var two := ParseTwo(rest);
        if two.None? then None
        else Some(Command(address, address2, cmd, Paired(two.value.0, two.value.1), two.value.2))
      else if cmd == 'y' then
        var two := ParseTwo(rest);
        if two.None? then None else Some(Command(address, address2, cmd, Paired(two.value.0, two.value.1), ""))
      else if cmd in "dpq=" then Some(Command(address, address2, cmd, "", ""))
      else if cmd in "aic" then
        Some(Command(address, address2, cmd, if "\\" <= rest then rest[1..] else rest, ""))
      else None
  }

  function ParseCommand(g: Engine, script: string): Option<Command> {
    var s := Trim(script);
    if s == "" then None
    else
      var (address, rest) := ParseAddress(g, s);
      ParseSecond(g, address, rest)
  }

  /** A comma and a second address, perhaps, and the action. */
  function ParseSecond(g: Engine, address: Option<Address>, s: string): Option<Command> {
    if "," <= s then
      var (address2, rest) := ParseAddress(g, s[1..]);
      ParseAction(address, address2, rest)
    else ParseAction(address, None, s)
  }

  /** What a command does, as it is written. */
  datatype Action =
    | Simple(cmd: char)
    | WithText(cmd: char, text: string)
    | Replace(delim: char, pattern: string, replacement: string, flags: string)
    | Translate(delim: char, source: string, dest: string)

  function WrittenAction(a: Action): (s: string)
  {
    match a
    case Simple(cmd) => [cmd]
    case WithText(cmd, text) => [cmd] + "\\" + text
    case Replace(delim, pattern, replacement, flags) =>
      "s" + [delim] + pattern + [delim] + replacement + [delim] + flags
    case Translate(delim, source, dest) => "y" + [delim] + source + [delim] + dest + [delim]
  }

  predicate SoundAction(a: Action) {
    match a
    case Simple(cmd) => cmd in "dpq="
    case WithText(cmd, _) => cmd in "aic"
    case Replace(delim, pattern, replacement, _) =>
      delim != '\\' && Closed(pattern, delim) && Closed(replacement, delim)
    case Translate(delim, source, dest) => delim != '\\' && Closed(source, delim) && Closed(dest, delim)
  }

  function Meant(address: Option<Address>, address2: Option<Address>, a: Action): Command {
    match a
    case Simple(cmd) => Command(address, address2, cmd, "", "")
    case WithText(cmd, text) => Command(address, address2, cmd, text, "")
    case Replace(_, pattern, replacement, flags) => Command(address, address2, 's', Paired(pattern, replacement), flags)
    case Translate(_, source, dest) => Command(address, address2, 'y', Paired(source, dest), "")
  }

  function WrittenOrNot(a: Option<Address>): string {
    if a.Some? then WrittenAddress(a.value) else ""
  }

  function SecondPrefix(address2: Option<Address>): string {
    if address2.Some? then "," + WrittenAddress(address2.value) else ""
  }

  function Written(address: Option<Address>, address2: Option<Address>, a: Action): string {
    WrittenOrNot(address) + (SecondPrefix(address2) + WrittenAction(a))
  }

  lemma TwoAreRead(delim: char, a: string, b: string, rest: string)
    requires delim != '\\' && Closed(a, delim) && Closed(b, delim)
    ensures ParseTwo([delim] + a + [delim] + b + [delim] + rest) == Some((a, b, rest))
  {
    var s := [delim] + a + [delim] + b + [delim] + rest;
    assert s == "" + [delim] + a + [delim] + (b + [delim] + rest);
    ClosingIff("", delim, a, b + [delim] + rest);
    var before := [delim] + a;
    assert s == before + [delim] + b + [delim] + rest;
    ClosingIff(before, delim, b, rest);
    var mid := |a| + 1;
    assert s[1..mid] == a && s[mid + 1..mid + 1 + |b|] == b && s[mid + 2 + |b|..] == rest;
  }

  lemma ActionIsRead(address: Option<Address>, address2: Option<Address>, a: Action)
    requires SoundAction(a)
    ensures ParseAction(address, address2, WrittenAction(a)) == Some(Meant(address, address2, a))
    ensures WrittenAction(a) != "" && WrittenAction(a)[0] in "sydpq=aic"
  {
    var s := WrittenAction(a);
    match a {
      case Simple(cmd) =>
      case WithText(cmd, text) =>
        assert s[1..] == "\\" + text && s[1..][1..] == text;
      case Replace(delim, pattern, replacement, flags) =>
        assert s[1..] == [delim] + pattern + [delim] + replacement + [delim] + flags;
        TwoAreRead(delim, pattern, replacement, flags);
      case Translate(delim, source, dest) =>
        assert s[1..] == [delim] + source + [delim] + dest + [delim] + "";
        TwoAreRead(delim, source, dest, "");
    }
  }

  lemma NoAddress(g: Engine, s: string)
    requires s != "" && s[0] in ",sydpq=aic"
    ensures ParseAddress(g, s) == (None, s)
  {
  }

  lemma CommaFirst(a: string, b: string)
    ensures var s := "," + a + b; s[0] == ',' && s[1..] == a + b
  {
  }

  lemma SecondIsRead(g: Engine, address: Option<Address>, address2: Option<Address>, action: string)
    requires action != "" && action[0] in "sydpq=aic" && (address2.Some? ==> Sound(g, address2.value))
    ensures var s := SecondPrefix(address2) + action;
      && s != "" && s[0] in ",sydpq=aic"
      && ParseSecond(g, address, s) == ParseAction(address, address2, action)
  {
    if address2.Some? {
      CommaFirst(WrittenAddress(address2.value), action);
      AddressIsRead(g, address2.value, action);
    } else {
      assert SecondPrefix(address2) + action == action;
    }
  }

  /** The addresses are read, whatever the text of the action is. */
  lemma AddressesAreRead(g: Engine, address: Option<Address>, address2: Option<Address>, action: string)
    requires (address.Some? ==> Sound(g, address.value)) && (address2.Some? ==> Sound(g, address2.value))
    requires action != "" && action[0] in "sydpq=aic"
    ensures var (first, rest) := ParseAddress(g, WrittenOrNot(address) + (SecondPrefix(address2) + action));
      ParseSecond(g, first, rest) == ParseAction(address, address2, action)
  {
    var rest := SecondPrefix(address2) + action;
    SecondIsRead(g, address, address2, action);
    if address.Some? {
      AddressIsRead(g, address.value, rest);
    } else {
      assert WrittenOrNot(address) + rest == rest;
      NoAddress(g, rest);
    }
  }

  lemma FirstIsNoSpace(address: Option<Address>, address2: Option<Address>, a: Action)
    requires SoundAction(a)
    ensures var s := Written(address, address2, a); s != "" && !IsSpace(s[0])
  {
    ActionIsRead(address, address2, a);
    var s := Written(address, address2, a);
    if address.Some? && (address.value.Line? || address.value.Step?) {
      var d := Decimal(if address.value.Line? then address.value.line else address.value.first);
      assert s[0] == d[0] && IsDigit(d[0]);
    }
  }

  // ---------------------------------------------------------------------------
  // What trimming the script takes from a command

  predicate EndsInSpace(s: string) {
    s != "" && IsSpace(s[|s| - 1])
  }

  /** The text without the white space that ends it. */
  predicate IsCut(s: string, t: string) {
    t <= s && !EndsInSpace(t) && forall k :: |t| <= k < |s| ==> IsSpace(s[k])
  }

  lemma {:induction false} TrimCuts(s: string)
    requires s != "" && !IsSpace(s[0])
    ensures IsCut(s, Trim(s))
    decreases |s|
  {
    if EndsInSpace(s) {
      TrimCuts(s[..|s| - 1]);
    }
  }

  lemma CutRest(pre: string, s: string, t: string)
    requires IsCut(pre + s, t) && |pre| <= |t|
    ensures IsCut(s, t[|pre|..])
  {
    var u := t[|pre|..];
    assert t == (pre + s)[..|t|];
    assert u == s[..|u|];
    forall k | |u| <= k < |s| ensures IsSpace(s[k]) {
      assert (pre + s)[|pre| + k] == s[k];
    }
  }

  lemma CutTail(pre: string, s: string, t: string)
    requires IsCut(pre + s, t) && s != "" && !IsSpace(s[0])
    ensures |t| > |pre| && t == pre + t[|pre|..] && IsCut(s, t[|pre|..])
  {
    assert (pre + s)[|pre|] == s[0];
    CutRest(pre, s, t);
    assert t == (pre + s)[..|t|];
  }

  /** How long a text is that was read as two. */
  lemma TwoLength(s: string)
    requires ParseTwo(s).Some?
    ensures var (a, b, rest) := ParseTwo(s).value;
      |s| == |a| + |b| + 3 + |rest| || (rest == "" && |s| == |a| + |b| + 2)
  {
    ScanFinds(s, s[0], 1, 1);
    var mid := Closing(s, s[0], 0);
    ScanFinds(s, s[0], mid + 1, mid + 1);
  }

  /** A closed text with no delimiter after it has no end. */
  lemma NoClosing(before: string, delim: char, b: string)
    requires delim != '\\' && Closed(b, delim)
    ensures Closing(before + [delim] + b, delim, |before|) == -1
  {
    var s, from := before + [delim] + b, |before| + 1;
    ScanFinds(s, delim, from, from);
    var end := Scan(s, delim, from, false);
    assert s == (before + [delim]) + b + "" && forall k :: 0 <= k < |b| ==> s[from + k] == b[k];
    if end >= 0 {
      BackslashesInside(before + [delim], b, "", end - from);
    }
  }

  /** The last delimiter may be missing. */
  lemma TwoWithoutLast(delim: char, a: string, b: string)
    requires delim != '\\' && Closed(a, delim) && Closed(b, delim) && b != ""
    ensures ParseTwo([delim] + a + [delim] + b) == Some((a, b, ""))
  {
    var s, mid := [delim] + a + [delim] + b, |a| + 1;
    assert s == "" + [delim] + a + [delim] + b;
    ClosingIff("", delim, a, b);
    NoClosing([delim] + a, delim, b);
    assert s[1..mid] == a && s[mid + 1..] == b;
  }

  /** Do three delimiters, two texts and flags survive the trimming?  A delimiter that is white
      space may be lost, if it is the last and only it is. */
  predicate TwoSurvive(delim: char, b: string, flags: string) {
    if flags != "" then !EndsInSpace(flags) else !IsSpace(delim) || (b != "" && !EndsInSpace(b))
  }

  /** Is this what was written between the delimiters? */
  predicate AreTwo(s: string, a: string, b: string, flags: string) {
    var two := ParseTwo(s);
    two.Some? && Paired(two.value.0, two.value.1) == Paired(a, b) && two.value.2 == flags
  }

  lemma TwoCutIff(delim: char, a: string, b: string, flags: string, s: string)
    requires delim != '\\' && Closed(a, delim) && Closed(b, delim)
    requires IsCut([delim] + a + [delim] + b + [delim] + flags, s)
    ensures AreTwo(s, a, b, flags) <==> TwoSurvive(delim, b, flags)
    ensures ParseTwo(s).Some? && Paired(ParseTwo(s).value.0, ParseTwo(s).value.1) == Paired(a, b) && flags == "" ==>
      ParseTwo(s).value.2 == ""
  {
    var full := [delim] + a + [delim] + b + [delim] + flags;
    var n := |a| + |b| + 3;
    assert full[n - 1] == delim && full[n..] == flags && full[|a| + 1] == delim && full[|a| + 2..n - 1] == b;
    assert full[..n - 1] == [delim] + a + [delim] + b;
    if ParseTwo(s).Some? {
      TwoLength(s);
    }
    if |s| == |full| {
      assert s == full;
      TwoAreRead(delim, a, b, flags);
      assert flags != "" ==> flags[|flags| - 1] == full[|full| - 1];
    } else {
      LongerCut(delim, a, b, flags, s, full);
    }
  }

  lemma LongerCut(delim: char, a: string, b: string, flags: string, s: string, full: string)
    requires delim != '\\' && Closed(a, delim) && Closed(b, delim) && IsCut(full, s) && |s| < |full|
    requires |full| == |a| + |b| + 3 + |flags|
    requires var n := |a| + |b| + 3;
      && full[n - 1] == delim && full[n..] == flags && full[|a| + 1] == delim && full[|a| + 2..n - 1] == b
      && full[..n - 1] == [delim] + a + [delim] + b
    ensures AreTwo(s, a, b, flags) <==> TwoSurvive(delim, b, flags)
  {
    var n := |a| + |b| + 3;
    assert IsSpace(full[|full| - 1]);
    if ParseTwo(s).Some? {
      TwoLength(s);
    }
    if flags != "" {
      assert flags[|flags| - 1] == full[|full| - 1];
    } else if |s| == n - 1 {
      assert s == full[..n - 1];
      assert s[|s| - 1] == full[n - 2];
      assert b != "" ==> b[|b| - 1] == full[n - 2];
      TwoWithoutLast(delim, a, b);
    } else {
      assert IsSpace(full[n - 2]);
      assert b != "" ==> b[|b| - 1] == full[n - 2];
    }
  }

  /** Does the action survive the trimming? */
  predicate Survives(a: Action) {
    match a
    case Simple(_) => true
    case WithText(_, text) => !EndsInSpace(text)
    case Replace(delim, _, replacement, flags) => TwoSurvive(delim, replacement, flags)
    case Translate(delim, _, dest) => TwoSurvive(delim, dest, "")
  }

  lemma ReplaceCutIff(address: Option<Address>, address2: Option<Address>, a: Action, s: string)
    requires a.Replace? && SoundAction(a) && s != "" && IsCut(WrittenAction(a), s)
    ensures ParseAction(address, address2, s) == Some(Meant(address, address2, a)) <==> Survives(a)
  {
    var rest := [a.delim] + a.pattern + [a.delim] + a.replacement + [a.delim] + a.flags;
    assert WrittenAction(a) == "s" + rest && s[0] == WrittenAction(a)[0] == 's';
    CutRest("s", rest, s);
    TwoCutIff(a.delim, a.pattern, a.replacement, a.flags, s[1..]);
  }

  lemma TranslateCutIff(address: Option<Address>, address2: Option<Address>, a: Action, s: string)
    requires a.Translate? && SoundAction(a) && s != "" && IsCut(WrittenAction(a), s)
    ensures ParseAction(address, address2, s) == Some(Meant(address, address2, a)) <==> Survives(a)
  {
    var rest := [a.delim] + a.source + [a.delim] + a.dest + [a.delim] + "";
    assert WrittenAction(a) == "y" + rest && s[0] == WrittenAction(a)[0] == 'y';
    CutRest("y", rest, s);
    TwoCutIff(a.delim, a.source, a.dest, "", s[1..]);
  }

  lemma ActionCutIff(address: Option<Address>, address2: Option<Address>, a: Action, s: string)
    requires SoundAction(a) && s != "" && IsCut(WrittenAction(a), s)
    ensures ParseAction(address, address2, s) == Some(Meant(address, address2, a)) <==> Survives(a)
  {
    match a {
      case Simple(cmd) =>
        assert s[0] == WrittenAction(a)[0];
      case WithText(cmd, text) =>
        assert s[0] == WrittenAction(a)[0];
        TextCutIff(cmd, text, s);
      case Replace(_, _, _, _) =>
        ReplaceCutIff(address, address2, a, s);
      case Translate(_, _, _) =>
        TranslateCutIff(address, address2, a, s);
    }
  }

  lemma TextCutIff(cmd: char, text: string, s: string)
    requires s != "" && IsCut([cmd] + "\\" + text, s)
    ensures "\\" <= s[1..] && (s[1..][1..] == text <==> !EndsInSpace(text))
  {
    var full := [cmd] + "\\" + text;
    assert full[1] == '\\' && full[2..] == text;
    assert s == full[..|s|];
    assert s[1..][1..] == s[2..];
    assert text != "" ==> text[|text| - 1] == full[|full| - 1];
    if |s| == |full| {
      assert s == full;
    }
  }

  /** Trimming leaves the addresses, and the action without the white space at its end. */
  lemma TrimmedCommand(address: Option<Address>, address2: Option<Address>, a: Action) returns (cut: string)
    requires SoundAction(a)
    ensures cut != "" && cut[0] == WrittenAction(a)[0] && IsCut(WrittenAction(a), cut)
    ensures Trim(Written(address, address2, a)) == WrittenOrNot(address) + (SecondPrefix(address2) + cut)
  {
    var first, second, action := WrittenOrNot(address), SecondPrefix(address2), WrittenAction(a);
    var s := Written(address, address2, a);
    FirstIsNoSpace(address, address2, a);
    TrimCuts(s);
    Regroup(first, second, action);
    NoSpaceFirst(a);
    CutTail(first + second, action, Trim(s));
    cut := Trim(s)[|first + second|..];
    Regroup(first, second, cut);
  }

  lemma NoSpaceFirst(a: Action)
    requires SoundAction(a)
    ensures WrittenAction(a) != "" && !IsSpace(WrittenAction(a)[0])
  {
    ActionIsRead(None, None, a);
  }

  /** A written command is read back exactly when the white space at its end, which is trimmed
      first, is no part of it but perhaps the last delimiter. */
  lemma CommandIsReadIff(g: Engine, address: Option<Address>, address2: Option<Address>, a: Action)
    requires (address.Some? ==> Sound(g, address.value)) && (address2.Some? ==> Sound(g, address2.value))
    requires SoundAction(a)
    ensures ParseCommand(g, Written(address, address2, a)) == Some(Meant(address, address2, a)) <==> Survives(a)
  {
    var cut := TrimmedCommand(address, address2, a);
    ActionIsRead(address, address2, a);
    AddressesAreRead(g, address, address2, cut);
    ActionCutIff(address, address2, a, cut);
  }

  /** In particular a written command that does not end in white space is read back. */
  lemma CommandIsRead(g: Engine, address: Option<Address>, address2: Option<Address>, a: Action)
    requires (address.Some? ==> Sound(g, address.value)) && (address2.Some? ==> Sound(g, address2.value))
    requires SoundAction(a) && !EndsInSpace(Written(address, address2, a))
    ensures ParseCommand(g, Written(address, address2, a)) == Some(Meant(address, address2, a))
  {
    var s, action := Written(address, address2, a), WrittenAction(a);
    ActionIsRead(address, address2, a);
    assert s[|s| - 1] == action[|action| - 1];
    EndOfAction(a);
    CommandIsReadIff(g, address, address2, a);
  }

  lemma EndOfAction(a: Action)
    requires SoundAction(a) && !EndsInSpace(WrittenAction(a))
    ensures Survives(a)
  {
  }
}
