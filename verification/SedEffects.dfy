/** What sed commands do. */
module SedEffects {
  // The output of one-command scripts line by line, and what a first command means for the ones
  // behind it, stated on the texts that are written.

  import opened Numbers
  import opened Options
  import opened Sed
  import opened Sequences

  function Flatten(parts: seq<seq<string>>): seq<string> {
    if parts == [] then [] else parts[0] + Flatten(parts[1..])
  }

  lemma FlattenFrom(parts: seq<seq<string>>, i: nat)
    requires i < |parts|
    ensures Flatten(parts[i..]) == parts[i] + Flatten(parts[i + 1..])
  {
    assert parts[i..][0] == parts[i] && parts[i..][1..] == parts[i + 1..];
  }

  /** One line more in front of the output of the lines behind it. */
  lemma OutputStep(g: Engine, cmds: seq<Command>, quiet: bool, lines: seq<string>, i: nat, r: Ranges, out: seq<string>,
                   r': Ranges, more: seq<string>)
    requires i < |lines| && LineOutput(g, cmds, quiet, lines, i, r) == (out, false, r')
    requires Output(g, cmds, quiet, lines, i + 1, r') == more
    ensures Output(g, cmds, quiet, lines, i, r) == out + more
  {
  }

  // ---------------------------------------------------------------------------
  // One command

  /** What one line gives: the run of the command, in closed form. */
  function LineOf(g: Engine, c: Command, quiet: bool, num: nat, line: string, chosen: bool): seq<string> {
    var x := if chosen then Act(g, c, num, Fresh(line, quiet)) else Fresh(line, quiet);
    if x.shown && !x.deleted then x.out + [x.line] else x.out
  }

  predicate AreParts(g: Engine, c: Command, quiet: bool, lines: seq<string>, parts: seq<seq<string>>) {
    |parts| == |lines| &&
    forall i :: 0 <= i < |lines| ==> parts[i] == LineOf(g, c, quiet, i + 1, lines[i], Chosen(g, c, lines, i))
  }

  lemma PartOfLine(g: Engine, c: Command, quiet: bool, lines: seq<string>, i: nat, r: Ranges, part: seq<string>)
      returns (r': Ranges)
    requires i < |lines| && c.cmd != 'a' && c.cmd != 'q' && Tracks(g, c, lines, i, r)
    requires part == LineOf(g, c, quiet, i + 1, lines[i], Chosen(g, c, lines, i))
    ensures LineOutput(g, [c], quiet, lines, i, r) == (part, false, r') && Tracks(g, c, lines, i + 1, r')
  {
    AskedIsChosen(g, c, lines, i, r);
    OneCommand(g, c, quiet, lines, i, r);
    r' := LineOutput(g, [c], quiet, lines, i, r).2;
  }

  lemma {:induction false} OutputIsParts(g: Engine, c: Command, quiet: bool, lines: seq<string>,
                                         parts: seq<seq<string>>, i: nat, r: Ranges)
    requires c.cmd != 'a' && c.cmd != 'q' && AreParts(g, c, quiet, lines, parts)
    requires i <= |lines| && Tracks(g, c, lines, i, r)
    ensures Output(g, [c], quiet, lines, i, r) == Flatten(parts[i..])
    decreases |lines| - i
  {
    if i == |lines| {
      assert parts[i..] == [];
    } else {
      var r' := PartOfLine(g, c, quiet, lines, i, r, parts[i]);
      OutputIsParts(g, c, quiet, lines, parts, i + 1, r');
      OutputStep(g, [c], quiet, lines, i, r, parts[i], r', Flatten(parts[i + 1..]));
      FlattenFrom(parts, i);
    }
  }

  lemma WholeOutput(g: Engine, c: Command, quiet: bool, lines: seq<string>, parts: seq<seq<string>>)
    requires c.cmd != 'a' && c.cmd != 'q' && AreParts(g, c, quiet, lines, parts)
    ensures Output(g, [c], quiet, lines, 0, map[]) == Flatten(parts)
  {
    OutputIsParts(g, c, quiet, lines, parts, 0, map[]);
    assert parts[0..] == parts;
  }

  /** `s`: each chosen line is replaced by what the engine makes of it; with the p flag it is
      printed once more when it changed. */
  lemma Substitutes(g: Engine, c: Command, quiet: bool, lines: seq<string>, parts: seq<seq<string>>)
    requires c.cmd == 's' && c.arg != "" && |parts| == |lines|
    requires forall i :: 0 <= i < |lines| ==>
      parts[i] == (if Chosen(g, c, lines, i) then
          var (result, changed) := g.substitute(lines[i], c.arg, c.flags);
          (if changed && 'p' in c.flags then [result] else []) + (if quiet then [] else [result])
        else if quiet then [] else [lines[i]])
    ensures Output(g, [c], quiet, lines, 0, map[]) == Flatten(parts)
  {
    WholeOutput(g, c, quiet, lines, parts);
  }

  /** `y`: each chosen line is transliterated. */
  lemma Transliterates(g: Engine, c: Command, quiet: bool, lines: seq<string>, parts: seq<seq<string>>)
    requires c.cmd == 'y' && c.arg != "" && |parts| == |lines|
    requires forall i :: 0 <= i < |lines| ==>
      parts[i] == (if quiet then []
        else [if Chosen(g, c, lines, i) then Transliterated(lines[i], c.arg) else lines[i]])
    ensures Output(g, [c], quiet, lines, 0, map[]) == Flatten(parts)
  {
    WholeOutput(g, c, quiet, lines, parts);
  }

  /** `p`: each chosen line stands once more. */
  lemma Prints(g: Engine, c: Command, quiet: bool, lines: seq<string>, parts: seq<seq<string>>)
    requires c.cmd == 'p' && |parts| == |lines|
    requires forall i :: 0 <= i < |lines| ==>
      parts[i] == (if Chosen(g, c, lines, i) then [lines[i]] else []) + (if quiet then [] else [lines[i]])
    ensures Output(g, [c], quiet, lines, 0, map[]) == Flatten(parts)
  {
    WholeOutput(g, c, quiet, lines, parts);
  }

  /** `=`: the number of each chosen line stands before it. */
  lemma NumbersLines(g: Engine, c: Command, quiet: bool, lines: seq<string>, parts: seq<seq<string>>)
    requires c.cmd == '=' && |parts| == |lines|
    requires forall i :: 0 <= i < |lines| ==>
      parts[i] == (if Chosen(g, c, lines, i) then [Decimal(i + 1)] else []) + (if quiet then [] else [lines[i]])
    ensures Output(g, [c], quiet, lines, 0, map[]) == Flatten(parts)
  {
    WholeOutput(g, c, quiet, lines, parts);
  }

  /** `i`: the text stands before each chosen line. */
  lemma Inserts(g: Engine, c: Command, quiet: bool, lines: seq<string>, parts: seq<seq<string>>)
    requires c.cmd == 'i' && c.arg != "" && |parts| == |lines|
    requires forall i :: 0 <= i < |lines| ==>
      parts[i] == (if Chosen(g, c, lines, i) then [c.arg] else []) + (if quiet then [] else [lines[i]])
    ensures Output(g, [c], quiet, lines, 0, map[]) == Flatten(parts)
  {
    WholeOutput(g, c, quiet, lines, parts);
  }

  /** `c`: the text stands instead of each chosen line, also when lines are not printed. */
  lemma Changes(g: Engine, c: Command, quiet: bool, lines: seq<string>, parts: seq<seq<string>>)
    requires c.cmd == 'c' && c.arg != "" && |parts| == |lines|
    requires forall i :: 0 <= i < |lines| ==>
      parts[i] == (if Chosen(g, c, lines, i) then [c.arg] else if quiet then [] else [lines[i]])
    ensures Output(g, [c], quiet, lines, 0, map[]) == Flatten(parts)
  {
    WholeOutput(g, c, quiet, lines, parts);
  }

  /** `d`: each chosen line is left out. */
  lemma Deletes(g: Engine, c: Command, quiet: bool, lines: seq<string>, parts: seq<seq<string>>)
    requires c.cmd == 'd' && |parts| == |lines|
    requires forall i :: 0 <= i < |lines| ==>
      parts[i] == (if Chosen(g, c, lines, i) || quiet then [] else [lines[i]])
    ensures Output(g, [c], quiet, lines, 0, map[]) == Flatten(parts)
  {
    WholeOutput(g, c, quiet, lines, parts);
  }

  /** A text a command is to write, but none is given: it writes nothing, and `c` still deletes. */
  lemma EmptyTexts(g: Engine, c: Command, quiet: bool, lines: seq<string>, parts: seq<seq<string>>)
    requires c.cmd in "syic" && c.arg == "" && |parts| == |lines|
    requires forall i :: 0 <= i < |lines| ==>
      parts[i] == (if (c.cmd == 'c' && Chosen(g, c, lines, i)) || quiet then [] else [lines[i]])
    ensures Output(g, [c], quiet, lines, 0, map[]) == Flatten(parts)
  {
    WholeOutput(g, c, quiet, lines, parts);
  }

  lemma QuitsOrNot(g: Engine, c: Command, quiet: bool, lines: seq<string>, i: nat, r: Ranges) returns (r': Ranges)
    requires i < |lines| && c.cmd == 'q' && Tracks(g, c, lines, i, r)
    ensures LineOutput(g, [c], quiet, lines, i, r) == (if quiet then [] else [lines[i]], Chosen(g, c, lines, i), r')
    ensures Tracks(g, c, lines, i + 1, r')
  {
    AskedIsChosen(g, c, lines, i, r);
    OneCommand(g, c, quiet, lines, i, r);
    assert [] + [lines[i]] == [lines[i]];
    r' := LineOutput(g, [c], quiet, lines, i, r).2;
  }

  /** `q` at the first chosen line ends the output with it. */
  lemma {:induction false} QuitsAtFirst(g: Engine, c: Command, quiet: bool, lines: seq<string>, k: nat, i: nat,
                                        r: Ranges)
    requires c.cmd == 'q' && i <= k <= |lines| && Tracks(g, c, lines, i, r)
    requires (forall j :: i <= j < k ==> !Chosen(g, c, lines, j)) && (k < |lines| ==> Chosen(g, c, lines, k))
    ensures Output(g, [c], quiet, lines, i, r) ==
      if quiet then [] else lines[i..if k < |lines| then k + 1 else k]
    decreases k - i
  {
    var end := if k < |lines| then k + 1 else k;
    if i == |lines| {
      assert lines[i..end] == [];
    } else {
      var r' := QuitsOrNot(g, c, quiet, lines, i, r);
      assert lines[i..end] == [lines[i]] + lines[i + 1..end];
      if i < k {
        QuitsAtFirst(g, c, quiet, lines, k, i + 1, r');
        OutputStep(g, [c], quiet, lines, i, r, if quiet then [] else [lines[i]], r',
                   if quiet then [] else lines[i + 1..end]);
      }
    }
  }

  /** The lines one address chooses: its number, the last, those the pattern is found in, or every
      step-th from the first on. */
  lemma AddressChooses(g: Engine, c: Command, lines: seq<string>, i: nat)
    requires i < |lines| && c.address.Some? && c.address2.None?
    ensures match c.address.value {
      case Line(n) => Chosen(g, c, lines, i) <==> i + 1 == n
      case Last => Chosen(g, c, lines, i) <==> i == |lines| - 1
      case Regex(pattern) => Chosen(g, c, lines, i) <==> g.test(pattern, lines[i])
      case Step(first, step) =>
        Chosen(g, c, lines, i) <==> step > 0 && exists k: nat :: i + 1 == Reached(first, k, step)
    }
  {
    if c.address.value.Step? {
      var first, step := c.address.value.first, c.address.value.step;
      if step > 0 && first <= i + 1 && (i + 1 - first) % step == 0 {
        var k := StepsTo(first, step, i + 1 - first);
      }
      if k: nat :| step > 0 && i + 1 == Reached(first, k, step) {
        StepsAreWhole(first, step, k);
      }
    }
  }

  /** The k-th number from the first on. */
  function Reached(first: nat, k: nat, step: nat): (n: nat)
    ensures n >= first
  {
    if k == 0 then first else Reached(first, k - 1, step) + step
  }

  lemma OneStepMore(n: nat, step: nat)
    requires step > 0
    ensures (n + step) % step == n % step
  {
    Distribute(step, n / step, 1);
    RemainderIs(n + step, step, n / step + 1, n % step);
  }

  lemma {:induction false} StepsAreWhole(first: nat, step: nat, k: nat)
    requires step > 0
    ensures (Reached(first, k, step) - first) % step == 0
  {
    if k > 0 {
      StepsAreWhole(first, step, k - 1);
      OneStepMore(Reached(first, k - 1, step) - first, step);
    }
  }

  lemma {:induction false} StepsTo(first: nat, step: nat, n: nat) returns (k: nat)
    requires step > 0 && n % step == 0
    ensures Reached(first, k, step) == first + n
    decreases n
  {
    if n < step {
      k := 0;
    } else {
      OneStepMore(n - step, step);
      k := StepsTo(first, step, n - step);
      k := k + 1;
    }
  }

  // ---------------------------------------------------------------------------
  // What `y` makes of a character

  lemma {:induction false} LastReplaces(source: string, dest: string, c: char, k: nat)
    requires |source| == |dest| && k < |source| && source[k] == c && forall j :: k < j < |source| ==> source[j] != c
    ensures Replacement(source, dest, c) == dest[k]
  {
    if source[|source| - 1] != c {
      LastReplaces(source[..|source| - 1], dest[..|dest| - 1], c, k);
    }
  }

  lemma {:induction false} OthersStay(source: string, dest: string, c: char)
    requires |source| == |dest| && c !in source
    ensures Replacement(source, dest, c) == c
  {
    if source != "" {
      OthersStay(source[..|source| - 1], dest[..|dest| - 1], c);
    }
  }

  lemma {:induction false} PartsOfPair(source: string, dest: string)
    requires '\0' !in source && '\0' !in dest
    ensures Before(source + "\0" + dest, '\0') == source && SecondPart(source + "\0" + dest, '\0') == dest
  {
    var s := source + "\0" + dest;
    if source == "" {
      assert s[1..] == dest && s[0] == '\0';
      NoMore(dest);
    } else {
      assert s[1..] == source[1..] + "\0" + dest;
      PartsOfPair(source[1..], dest);
    }
  }

  lemma {:induction false} NoMore(s: string)
    requires '\0' !in s
    ensures Before(s, '\0') == s
  {
    if s != "" {
      NoMore(s[1..]);
    }
  }

  /** A character is replaced by the one at the last place where it stands in the source, and
      stays when it stands nowhere.  Sets of different or no length change nothing. */
  lemma TransliteratedIs(source: string, dest: string, line: string, i: nat)
    requires '\0' !in source && '\0' !in dest && i < |line|
    ensures var t := Transliterated(line, source + "\0" + dest);
      && |t| == |line|
      && (|source| != |dest| || line[i] !in source ==> t[i] == line[i])
      && (forall k :: 0 <= k < |source| == |dest| && source[k] == line[i]
            && (forall j :: k < j < |source| ==> source[j] != line[i])
            ==> t[i] == dest[k])
  {
    PartsOfPair(source, dest);
    if |source| == |dest| {
      if line[i] !in source {
        OthersStay(source, dest, line[i]);
      }
      forall k | 0 <= k < |source| && source[k] == line[i] && (forall j :: k < j < |source| ==> source[j] != line[i])
        ensures Replacement(source, dest, line[i]) == dest[k]
      {
        LastReplaces(source, dest, line[i], k);
      }
    }
  }

  // ---------------------------------------------------------------------------
  // Appending

  /** The range of an `a` command is asked about twice on a line that is not empty, so that it
      moves on twice: is it open before line i? */
  function AppendOpens(opens: seq<bool>, closes: seq<bool>, lines: seq<string>, i: nat): bool
    requires i <= |lines| == |opens| == |closes|
  {
    if i == 0 then false
    else
      var once := AskedOnce(AppendOpens(opens, closes, lines, i - 1), opens[i - 1], closes[i - 1]);
      if lines[i - 1] == "" then once else AskedOnce(once, opens[i - 1], closes[i - 1])
  }

  /** A range that is open stays so unless it closes, and one that is not may open. */
  function AskedOnce(open: bool, opens: bool, closes: bool): bool {
    if open then !closes else opens
  }

  /** Is the text appended after line i? */
  predicate Appends(g: Engine, c: Command, lines: seq<string>, i: nat)
    requires i < |lines|
  {
    lines[i] != "" &&
    if c.address.None? || c.address2.None? then Chosen(g, c, lines, i)
    else
      var opens, closes := Hits(g, c.address, lines), Hits(g, c.address2, lines);
      AskedOnce(AppendOpens(opens, closes, lines, i), opens[i], closes[i]) || opens[i]
  }

  ghost predicate AppendTracks(g: Engine, c: Command, lines: seq<string>, i: nat, r: Ranges)
    requires i <= |lines|
  {
    c.address.Some? && c.address2.Some? ==>
      Open(r, 0) == AppendOpens(Hits(g, c.address, lines), Hits(g, c.address2, lines), lines, i)
  }

  predicate IsAppendPart(g: Engine, c: Command, quiet: bool, lines: seq<string>, i: nat, part: seq<string>)
    requires i < |lines|
  {
    part == (if quiet then [] else [lines[i]]) + (if Appends(g, c, lines, i) && c.arg != "" then [c.arg] else [])
  }

  lemma AppendsOne(g: Engine, c: Command, quiet: bool, lines: seq<string>, i: nat, r: Ranges)
    requires i < |lines| && c.cmd == 'a' && AppendTracks(g, c, lines, i, r)
    ensures var (out, quit, r') := LineOutput(g, [c], quiet, lines, i, r);
      IsAppendPart(g, c, quiet, lines, i, out) && !quit && AppendTracks(g, c, lines, i + 1, r')
  {
    var x := Fresh(lines[i], quiet);
    var (_, r1) := Asked(g, [c][0], 0, i + 1, lines[i], |lines|, r);
    assert Run(g, [c], 1, i + 1, |lines|, x, r1) == (x, r1);
    assert Run(g, [c], 0, i + 1, |lines|, x, r) == (x, r1);
    var (selected, r2) := Asked(g, [c][0], 0, i + 1, lines[i], |lines|, r1);
    assert Appended(g, [c], 1, i + 1, lines[i], |lines|, r2) == ([], r2);
    assert Appended(g, [c], 1, i + 1, lines[i], |lines|, r1) == ([], r1);
    assert [] + [lines[i]] == [lines[i]];
  }

  predicate AreAppendParts(g: Engine, c: Command, quiet: bool, lines: seq<string>, parts: seq<seq<string>>) {
    |parts| == |lines| && forall i :: 0 <= i < |lines| ==> IsAppendPart(g, c, quiet, lines, i, parts[i])
  }

  lemma SameAppendPart(g: Engine, c: Command, quiet: bool, lines: seq<string>, i: nat, a: seq<string>, b: seq<string>)
    requires i < |lines| && IsAppendPart(g, c, quiet, lines, i, a) && IsAppendPart(g, c, quiet, lines, i, b)
    ensures a == b
  {
  }

  lemma {:induction false} AppendsFrom(g: Engine, c: Command, quiet: bool, lines: seq<string>, parts: seq<seq<string>>,
                                       i: nat, r: Ranges)
    requires i <= |lines| && c.cmd == 'a' && AppendTracks(g, c, lines, i, r)
    requires AreAppendParts(g, c, quiet, lines, parts)
    ensures Output(g, [c], quiet, lines, i, r) == Flatten(parts[i..])
    decreases |lines| - i
  {
    if i == |lines| {
      assert parts[i..] == [];
    } else {
      var (out, _, r') := LineOutput(g, [c], quiet, lines, i, r);
      AppendsOne(g, c, quiet, lines, i, r);
      SameAppendPart(g, c, quiet, lines, i, out, parts[i]);
      AppendsFrom(g, c, quiet, lines, parts, i + 1, r');
      OutputStep(g, [c], quiet, lines, i, r, parts[i], r', Flatten(parts[i + 1..]));
      FlattenFrom(parts, i);
    }
  }

  /** `a`: the text stands behind the lines it is appended to, which are never empty ones, and
      with one address or none are the chosen ones. */
  lemma AppendsText(g: Engine, c: Command, quiet: bool, lines: seq<string>, parts: seq<seq<string>>)
    requires c.cmd == 'a' && |parts| == |lines|
    requires forall i :: 0 <= i < |lines| ==>
      parts[i] == (if quiet then [] else [lines[i]]) + (if Appends(g, c, lines, i) && c.arg != "" then [c.arg] else [])
    ensures Output(g, [c], quiet, lines, 0, map[]) == Flatten(parts)
  {
    AppendsFrom(g, c, quiet, lines, parts, 0, map[]);
    assert parts[0..] == parts;
  }

  lemma {:induction false} AppendOpensNumeric(g: Engine, a: nat, b: nat, lines: seq<string>, i: nat)
    requires i <= |lines| && 1 <= a
    ensures AppendOpens(Hits(g, Some(Sed.Line(a)), lines), Hits(g, Some(Sed.Line(b)), lines), lines, i) <==>
      a <= i && (b < a || i < b || (b == a && lines[a - 1] == ""))
  {
    if i > 0 {
      AppendOpensNumeric(g, a, b, lines, i - 1);
    }
  }

  /** A range a,b of line numbers appends after the lines from a to the one before b, not after
      line b, where every other command still acts; after line a alone when b is a and that line
      is not empty; and after all lines from a on when b is before a, or is a and that line is
      empty.  Empty lines get no text. */
  lemma AppendsInNumericRange(g: Engine, c: Command, a: nat, b: nat, lines: seq<string>, i: nat)
    requires i < |lines| && 1 <= a && c.address == Some(Sed.Line(a)) && c.address2 == Some(Sed.Line(b))
    ensures Appends(g, c, lines, i) <==>
      lines[i] != "" && a <= i + 1 && (b < a || i + 1 < b || (b == a && (i + 1 == a || lines[a - 1] == "")))
  {
    AppendOpensNumeric(g, a, b, lines, i);
  }

  // ---------------------------------------------------------------------------
  // The first command of several

  /** The ranges of the commands behind the first one. */
  ghost predicate Behind(r: Ranges, later: Ranges) {
    forall k: nat :: Open(r, k + 1) == Open(later, k)
  }

  predicate NoAppends(cmds: seq<Command>) {
    forall k :: 0 <= k < |cmds| ==> cmds[k].cmd != 'a'
  }

  lemma AskedBehind(g: Engine, c: Command, k: nat, num: nat, line: string, last: nat, r: Ranges, later: Ranges)
    requires Behind(r, later)
    ensures var (s, r') := Asked(g, c, k + 1, num, line, last, r);
      var (s', later') := Asked(g, c, k, num, line, last, later);
      s == s' && Behind(r', later') && Open(r', 0) == Open(r, 0)
  {
    var (s, r') := Asked(g, c, k + 1, num, line, last, r);
    var (s', later') := Asked(g, c, k, num, line, last, later);
    assert Open(r, k + 1) == Open(later, k);
    forall j: nat ensures Open(r', j + 1) == Open(later', j) {
      assert Open(r, j + 1) == Open(later, j);
    }
  }

  lemma {:induction false} RunBehind(g: Engine, first: Command, cmds: seq<Command>, k: nat, num: nat, last: nat,
                                     x: Cycle, r: Ranges, later: Ranges)
    requires k <= |cmds| && Behind(r, later)
    ensures var (y, r') := Run(g, [first] + cmds, k + 1, num, last, x, r);
      var (y', later') := Run(g, cmds, k, num, last, x, later);
      y == y' && Behind(r', later') && Open(r', 0) == Open(r, 0)
    decreases |cmds| - k
  {
    if k < |cmds| && !x.deleted && !x.quit {
      assert ([first] + cmds)[k + 1] == cmds[k];
      AskedBehind(g, cmds[k], k, num, x.line, last, r, later);
      var (s, r') := Asked(g, cmds[k], k + 1, num, x.line, last, r);
      var (s', later') := Asked(g, cmds[k], k, num, x.line, last, later);
      RunBehind(g, first, cmds, k + 1, num, last, if s then Act(g, cmds[k], num, x) else x, r', later');
    }
  }

  lemma {:induction false} NothingAppended(g: Engine, cmds: seq<Command>, k: nat, num: nat, line: string, last: nat,
                                           r: Ranges)
    requires k <= |cmds| && NoAppends(cmds)
    ensures Appended(g, cmds, k, num, line, last, r) == ([], r)
    decreases |cmds| - k
  {
    if k < |cmds| {
      NothingAppended(g, cmds, k + 1, num, line, last, r);
    }
  }

  /** What was written before the other commands ran stands in front of what they write. */
  lemma {:induction false} RunWrites(g: Engine, cmds: seq<Command>, k: nat, num: nat, last: nat, x: Cycle, r: Ranges)
    requires k <= |cmds|
    ensures var (y, r') := Run(g, cmds, k, num, last, x, r);
      var (y', r'') := Run(g, cmds, k, num, last, x.(out := []), r);
      r' == r'' && y == y'.(out := x.out + y'.out)
    decreases |cmds| - k
  {
    if k == |cmds| || x.deleted || x.quit {
      assert x.out + [] == x.out;
    } else {
      var (s, r') := Asked(g, cmds[k], k, num, x.line, last, r);
      var z := if s then Act(g, cmds[k], num, x) else x;
      var z' := if s then Act(g, cmds[k], num, x.(out := [])) else x.(out := []);
      ActWrites(g, cmds[k], num, x);
      RunWrites(g, cmds, k + 1, num, last, z, r');
      RunWrites(g, cmds, k + 1, num, last, z', r');
      var (w, _) := Run(g, cmds, k + 1, num, last, z'.(out := []), r');
      assert z'.(out := []) == z.(out := []);
      assert x.out + [] == x.out;
      Regroup(x.out, z'.out, w.out);
    }
  }

  lemma ShowWrites(x: Cycle, y: Cycle, text: string)
    requires x == y.(out := x.out) && y.out == []
    ensures Show(x, text) == Show(y, text).(out := x.out + Show(y, text).out)
  {
    assert y.out + [text] == [text];
  }

  lemma ActWrites(g: Engine, c: Command, num: nat, x: Cycle)
    ensures Act(g, c, num, x) == Act(g, c, num, x.(out := [])).(out := x.out + Act(g, c, num, x.(out := [])).out)
  {
    var y := x.(out := []);
    assert x.out + [] == x.out;
    if c.cmd == 's' && c.arg != "" {
      var (line, changed) := g.substitute(x.line, c.arg, c.flags);
      ShowWrites(x.(line := line), y.(line := line), line);
    } else if c.cmd == 'p' || c.cmd == 'q' {
      ShowWrites(x, y, x.line);
    } else if c.cmd == '=' {
      ShowWrites(x, y, Decimal(num));
    } else if c.cmd == 'i' || c.cmd == 'c' {
      ShowWrites(x, y, c.arg);
    }
  }

  /** A first command that is not selected, or has done its work, leaves the line to the others. */
  lemma FirstThenRest(g: Engine, first: Command, cmds: seq<Command>, quiet: bool, lines: seq<string>, i: nat,
                      r: Ranges, later: Ranges, out: seq<string>, line: string)
    requires i < |lines| && Behind(r, later) && first.cmd != 'a' && NoAppends(cmds)
    requires var (selected, _) := Asked(g, first, 0, i + 1, lines[i], |lines|, r);
      var x := Fresh(lines[i], quiet);
      (if selected then Act(g, first, i + 1, x) else x) == Fresh(line, quiet).(out := out)
    ensures var (o, q, r') := LineOutput(g, [first] + cmds, quiet, lines, i, r);
      var (o', q', later') := LineOutput(g, cmds, quiet, lines[i := line], i, later);
      && o == out + o' && q == q' && Behind(r', later')
      && Open(r', 0) == Open(Asked(g, first, 0, i + 1, lines[i], |lines|, r).1, 0)
  {
    var all := [first] + cmds;
    var (selected, r1) := Asked(g, all[0], 0, i + 1, lines[i], |lines|, r);
    var x := Fresh(line, quiet).(out := out);
    assert Behind(r1, later);
    assert Run(g, all, 0, i + 1, |lines|, Fresh(lines[i], quiet), r) == Run(g, all, 1, i + 1, |lines|, x, r1);
    RunBehind(g, first, cmds, 0, i + 1, |lines|, x, r1, later);
    RunWrites(g, cmds, 0, i + 1, |lines|, x, later);
    assert x.(out := []) == Fresh(line, quiet);
    var (y, r2) := Run(g, all, 1, i + 1, |lines|, x, r1);
    var (y', later2) := Run(g, cmds, 0, i + 1, |lines|, Fresh(line, quiet), later);
    NothingAppended(g, all, 0, i + 1, lines[i], |lines|, r2);
    NothingAppended(g, cmds, 0, i + 1, line, |lines|, later2);
    Regroup(out, y'.out, [y'.line]);
    assert y.out + [] == y.out && y.out + [y.line] + [] == y.out + [y.line];
    assert y'.out + [] == y'.out && y'.out + [y'.line] + [] == y'.out + [y'.line];
  }

  /** A first `p`, `=` or `i` writes its text in front of what the other commands make of the line,
      when it is selected. */
  lemma FirstWrites(g: Engine, first: Command, cmds: seq<Command>, quiet: bool, lines: seq<string>, i: nat,
                    r: Ranges, later: Ranges)
    requires i < |lines| && Behind(r, later) && first.cmd in "p=i" && NoAppends(cmds)
    ensures var selected := Asked(g, first, 0, i + 1, lines[i], |lines|, r).0;
      var text := if first.cmd == 'p' then lines[i] else if first.cmd == '=' then Decimal(i + 1) else first.arg;
      var (o, q, _) := LineOutput(g, [first] + cmds, quiet, lines, i, r);
      var (o', q', _) := LineOutput(g, cmds, quiet, lines, i, later);
      o == (if selected && (first.cmd == 'i' ==> text != "") then [text] else []) + o' && q == q'
  {
    var selected := Asked(g, first, 0, i + 1, lines[i], |lines|, r).0;
    var text := if first.cmd == 'p' then lines[i] else if first.cmd == '=' then Decimal(i + 1) else first.arg;
    var out := if selected && (first.cmd == 'i' ==> text != "") then [text] else [];
    assert [] + [text] == [text] && lines[i := lines[i]] == lines;
    FirstThenRest(g, first, cmds, quiet, lines, i, r, later, out, lines[i]);
  }

  /** After a first `d`, `c` or `q` that is selected, no other command sees the line. */
  lemma FirstEnds(g: Engine, first: Command, cmds: seq<Command>, quiet: bool, lines: seq<string>, i: nat, r: Ranges)
    requires i < |lines| && first.cmd in "dcq" && NoAppends(cmds)
    requires Asked(g, first, 0, i + 1, lines[i], |lines|, r).0
    ensures var (out, quit, _) := LineOutput(g, [first] + cmds, quiet, lines, i, r);
      && (quit <==> first.cmd == 'q')
      && out == if first.cmd == 'q' then (if quiet then [] else [lines[i]])
                else if first.cmd == 'c' && first.arg != "" then [first.arg] else []
  {
    var all, x := [first] + cmds, Fresh(lines[i], quiet);
    var r1 := Asked(g, all[0], 0, i + 1, lines[i], |lines|, r).1;
    var y := Act(g, first, i + 1, x);
    assert [] + [lines[i]] == [lines[i]] && [] + [first.arg] == [first.arg];
    assert Run(g, all, 1, i + 1, |lines|, y, r1) == (y, r1);
    NothingAppended(g, all, 0, i + 1, lines[i], |lines|, r1);
    assert y.out + [] == y.out;
  }

  // ---------------------------------------------------------------------------
  // Editing, then the rest

  /** Does the command change lines one by one and write nothing of its own? */
  predicate Edits(c: Command) {
    (c.cmd == 's' && 'p' !in c.flags) || c.cmd == 'y'
  }

  /** What it makes of a line. */
  function EditedLine(g: Engine, c: Command, line: string): string {
    if c.arg == "" then line
    else if c.cmd == 's' then g.substitute(line, c.arg, c.flags).0
    else Transliterated(line, c.arg)
  }

  predicate AreEdited(g: Engine, c: Command, lines: seq<string>, edited: seq<string>) {
    |edited| == |lines| && forall i :: 0 <= i < |lines| ==>
      edited[i] == if Chosen(g, c, lines, i) then EditedLine(g, c, lines[i]) else lines[i]
  }

  lemma {:induction false} FlattenSingles(parts: seq<seq<string>>, lines: seq<string>)
    requires |parts| == |lines| && forall i :: 0 <= i < |lines| ==> parts[i] == [lines[i]]
    ensures Flatten(parts) == lines
  {
    if parts != [] {
      FlattenSingles(parts[1..], lines[1..]);
      assert lines == [lines[0]] + lines[1..];
    }
  }

  lemma EditsLines(g: Engine, c: Command, lines: seq<string>, edited: seq<string>)
    requires Edits(c) && AreEdited(g, c, lines, edited)
    ensures Output(g, [c], false, lines, 0, map[]) == edited
  {
    var parts := seq(|edited|, i requires 0 <= i < |edited| => [edited[i]]);
    assert AreParts(g, c, false, lines, parts) by {
      assert forall i :: 0 <= i < |lines| ==> [] + [edited[i]] == [edited[i]];
    }
    WholeOutput(g, c, false, lines, parts);
    FlattenSingles(parts, edited);
  }

  /** `s` without the p flag: the lines, each chosen one replaced. */
  lemma SubstitutesLines(g: Engine, c: Command, lines: seq<string>, edited: seq<string>)
    requires c.cmd == 's' && c.arg != "" && 'p' !in c.flags && |edited| == |lines|
    requires forall i :: 0 <= i < |lines| ==>
      edited[i] == if Chosen(g, c, lines, i) then g.substitute(lines[i], c.arg, c.flags).0 else lines[i]
    ensures Output(g, [c], false, lines, 0, map[]) == edited
  {
    EditsLines(g, c, lines, edited);
  }

  /** `y`: the lines, each chosen one transliterated. */
  lemma TransliteratesLines(g: Engine, c: Command, lines: seq<string>, edited: seq<string>)
    requires c.cmd == 'y' && c.arg != "" && |edited| == |lines|
    requires forall i :: 0 <= i < |lines| ==>
      edited[i] == if Chosen(g, c, lines, i) then Transliterated(lines[i], c.arg) else lines[i]
    ensures Output(g, [c], false, lines, 0, map[]) == edited
  {
    EditsLines(g, c, lines, edited);
  }

  lemma SameLine(g: Engine, cmds: seq<Command>, quiet: bool, lines: seq<string>, lines': seq<string>, i: nat, r: Ranges)
    requires i < |lines| == |lines'| && lines[i] == lines'[i]
    ensures LineOutput(g, cmds, quiet, lines, i, r) == LineOutput(g, cmds, quiet, lines', i, r)
  {
  }

  lemma EditThenLine(g: Engine, c: Command, cmds: seq<Command>, quiet: bool, lines: seq<string>, edited: seq<string>,
                     i: nat, r: Ranges, later: Ranges)
    requires Edits(c) && NoAppends(cmds) && AreEdited(g, c, lines, edited)
    requires i < |lines| && Tracks(g, c, lines, i, r) && Behind(r, later)
    ensures var (o, q, r') := LineOutput(g, [c] + cmds, quiet, lines, i, r);
      var (o', q', later') := LineOutput(g, cmds, quiet, edited, i, later);
      o == o' && q == q' && Behind(r', later') && Tracks(g, c, lines, i + 1, r')
  {
    AskedIsChosen(g, c, lines, i, r);
    FirstThenRest(g, c, cmds, quiet, lines, i, r, later, [], edited[i]);
    SameLine(g, cmds, quiet, lines[i := edited[i]], edited, i, later);
    var o' := LineOutput(g, cmds, quiet, edited, i, later).0;
    assert [] + o' == o';
  }

  lemma {:induction false} EditThenFrom(g: Engine, c: Command, cmds: seq<Command>, quiet: bool, lines: seq<string>,
                                        edited: seq<string>, i: nat, r: Ranges, later: Ranges)
    requires Edits(c) && NoAppends(cmds) && AreEdited(g, c, lines, edited)
    requires i <= |lines| && Tracks(g, c, lines, i, r) && Behind(r, later)
    ensures Output(g, [c] + cmds, quiet, lines, i, r) == Output(g, cmds, quiet, edited, i, later)
    decreases |lines| - i
  {
    if i < |lines| {
      EditThenLine(g, c, cmds, quiet, lines, edited, i, r, later);
      var (_, quit, r') := LineOutput(g, [c] + cmds, quiet, lines, i, r);
      var (_, _, later') := LineOutput(g, cmds, quiet, edited, i, later);
      if !quit {
        EditThenFrom(g, c, cmds, quiet, lines, edited, i + 1, r', later');
      }
    }
  }

  /** A script that begins with `s` (without the p flag) or `y` is the rest of the script run on
      what the first command makes of the lines, whatever the addresses look at. */
  lemma EditThenRest(g: Engine, c: Command, cmds: seq<Command>, quiet: bool, lines: seq<string>)
    requires ((c.cmd == 's' && 'p' !in c.flags) || c.cmd == 'y') && forall k :: 0 <= k < |cmds| ==> cmds[k].cmd != 'a'
    ensures Output(g, [c] + cmds, quiet, lines, 0, map[]) ==
      Output(g, cmds, quiet, Output(g, [c], false, lines, 0, map[]), 0, map[])
  {
    var edited := seq(|lines|, i requires 0 <= i < |lines| =>
      if Chosen(g, c, lines, i) then EditedLine(g, c, lines[i]) else lines[i]);
    EditsLines(g, c, lines, edited);
    EditThenFrom(g, c, cmds, quiet, lines, edited, 0, map[], map[]);
  }
}
