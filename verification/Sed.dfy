/** sed's execution, from rom/bin/sed.ts. */
module Sed {
  // Addresses, the two-state automaton of a range, and processLines. Regular expressions and
  // substitution are functions of their texts.

  import opened Numbers
  import opened Options
  import opened Sequences

  datatype Address = Line(line: nat) | Last | Regex(pattern: string) | Step(first: nat, step: nat)

  datatype Command = Command(address: Option<Address>, address2: Option<Address>, cmd: char, arg: string, flags: string)

  /** The regular expressions: which compile, what they find, what `s` makes of a line. */
  datatype Engine = Engine(
    compiles: string -> bool,
    test: (string, string) -> bool,
    substitute: (string, string, string) -> (string, bool))

  /** Which ranges are open, by the command's place in the script. */
  type Ranges = map<nat, bool>

  // ---------------------------------------------------------------------------
  // Addresses

  /** A step of zero gives NaN, which equals nothing. */
  predicate Matches(g: Engine, a: Address, num: nat, line: string, last: nat) {
    match a
    case Line(n) => num == n
    case Last => num == last
    case Regex(pattern) => g.test(pattern, line)
    case Step(first, step) => num >= first && step > 0 && (num - first) % step == 0
  }

  function Open(r: Ranges, k: nat): bool {
    k in r && r[k]
  }

  /** inRange: is the command to be run on this line, and the ranges after asking. */
  function Asked(g: Engine, c: Command, k: nat, num: nat, line: string, last: nat, r: Ranges): (bool, Ranges) {
    if c.address.None? then (true, r)
    else if c.address2.None? then (Matches(g, c.address.value, num, line, last), r)
    else if !Open(r, k) then
      if Matches(g, c.address.value, num, line, last) then (true, r[k := true]) else (false, r)
    else if Matches(g, c.address2.value, num, line, last) then (true, r[k := false])
    else (true, r)
  }

  class RangeState {
    var ranges: Ranges

    constructor ()
      ensures ranges == map[]
    {
      ranges := map[];
    }

    method InRange(g: Engine, c: Command, k: nat, num: nat, line: string, last: nat) returns (selected: bool)
      modifies this
      ensures (selected, ranges) == Asked(g, c, k, num, line, last, old(ranges))
    {
      if c.address.None? {
        return true;
      }
      if c.address2.None? {
        return Matches(g, c.address.value, num, line, last);
      }
      var inRangeNow := if k in ranges then ranges[k] else false;
      if !inRangeNow {
        if Matches(g, c.address.value, num, line, last) {
          ranges := ranges[k := true];
          return true;
        }
        return false;
      }
      if Matches(g, c.address2.value, num, line, last) {
        ranges := ranges[k := false];
      }
      return true;
    }
  }

  // ---------------------------------------------------------------------------
  // One line

  /** The argument of `y`: characters, and the characters that replace them. */
  function Before(s: string, c: char): string {
    if s == "" || s[0] == c then "" else [s[0]] + Before(s[1..], c)
  }

  function SecondPart(s: string, c: char): string {
    if s == "" then "" else if s[0] == c then Before(s[1..], c) else SecondPart(s[1..], c)
  }

  /** The map of `y`: a character given twice keeps its last replacement. */
  function Replacement(source: string, dest: string, c: char): char
    requires |source| == |dest|
  {
    if source == "" then c
    else if source[|source| - 1] == c then dest[|dest| - 1]
    else Replacement(source[..|source| - 1], dest[..|dest| - 1], c)
  }

  function Transliterated(line: string, arg: string): string {
    var source, dest := Before(arg, '\0'), SecondPart(arg, '\0');
    if source == "" || dest == "" || |source| != |dest| then line
    else seq(|line|, i requires 0 <= i < |line| => Replacement(source, dest, line[i]))
  }

  /** A line while the commands run on it. */
  datatype Cycle = Cycle(line: string, shown: bool, deleted: bool, quit: bool, out: seq<string>)

  function Show(x: Cycle, text: string): Cycle {
    x.(out := x.out + [text])
  }

  /** What a selected command does. */
  function Act(g: Engine, c: Command, num: nat, x: Cycle): Cycle {
    if c.cmd == 's' then
      if c.arg == "" then x
      else
        var (line, changed) := g.substitute(x.line, c.arg, c.flags);
        if changed && 'p' in c.flags then Show(x.(line := line), line) else x.(line := line)
    else if c.cmd == 'y' then x.(line := if c.arg == "" then x.line else Transliterated(x.line, c.arg))
    else if c.cmd == 'd' then x.(deleted := true, shown := false)
    else if c.cmd == 'p' then Show(x, x.line)
    else if c.cmd == 'q' then
      (if x.shown && !x.deleted then Show(x, x.line) else x).(shown := false, quit := true)
    else if c.cmd == '=' then Show(x, Decimal(num))
    else if c.cmd == 'i' then if c.arg == "" then x else Show(x, c.arg)
    else if c.cmd == 'c' then (if c.arg == "" then x else Show(x, c.arg)).(deleted := true, shown := false)
    else x
  }

  /** The commands from k on, up to one that deletes the line or quits. */
  function Run(g: Engine, cmds: seq<Command>, k: nat, num: nat, last: nat, x: Cycle, r: Ranges): (Cycle, Ranges)
    requires k <= |cmds|
    decreases |cmds| - k
  {
    if k == |cmds| || x.deleted || x.quit then (x, r)
    else
      var (selected, r') := Asked(g, cmds[k], k, num, x.line, last, r);
      Run(g, cmds, k + 1, num, last, if selected then Act(g, cmds[k], num, x) else x, r')
  }

  /** The texts appended after a line.  The line as it was read is asked about, and not at all
      when it is empty. */
  function Appended(g: Engine, cmds: seq<Command>, k: nat, num: nat, line: string, last: nat,
                    r: Ranges): (seq<string>, Ranges)
    requires k <= |cmds|
    decreases |cmds| - k
  {
    if k == |cmds| then ([], r)
    else if cmds[k].cmd == 'a' && line != "" then
      var (selected, r1) := Asked(g, cmds[k], k, num, line, last, r);
      var (texts, r2) := Appended(g, cmds, k + 1, num, line, last, r1);
      (if selected && cmds[k].arg != "" then [cmds[k].arg] + texts else texts, r2)
    else Appended(g, cmds, k + 1, num, line, last, r)
  }

  function Fresh(line: string, quiet: bool): Cycle {
    Cycle(line, !quiet, false, false, [])
  }

  /** What one line gives, whether it ends the run, and the ranges after it. */
  function LineOutput(g: Engine, cmds: seq<Command>, quiet: bool, lines: seq<string>, i: nat,
                      r: Ranges): (seq<string>, bool, Ranges)
    requires i < |lines|
  {
    var (x, r1) := Run(g, cmds, 0, i + 1, |lines|, Fresh(lines[i], quiet), r);
    var (texts, r2) := Appended(g, cmds, 0, i + 1, lines[i], |lines|, r1);
    ((if x.shown && !x.deleted then x.out + [x.line] else x.out) + texts, x.quit, r2)
  }

  /** The output for the lines from i on. */
  function Output(g: Engine, cmds: seq<Command>, quiet: bool, lines: seq<string>, i: nat, r: Ranges): seq<string>
    requires i <= |lines|
    decreases |lines| - i
  {
    if i == |lines| then []
    else
      var (out, quit, r') := LineOutput(g, cmds, quiet, lines, i, r);
      if quit then out else out + Output(g, cmds, quiet, lines, i + 1, r')
  }

  // ---------------------------------------------------------------------------
  // The loops

  method RunCommands(g: Engine, cmds: seq<Command>, num: nat, last: nat, start: string, quiet: bool, s: RangeState)
      returns (x: Cycle)
    modifies s
    ensures (x, s.ranges) == Run(g, cmds, 0, num, last, Fresh(start, quiet), old(s.ranges))
  {
    var line, shown, deleted, quit := start, !quiet, false, false;
    var output: seq<string> := [];
    var k := 0;
    while k < |cmds|
      invariant 0 <= k <= |cmds| && !deleted && !quit
      invariant Run(g, cmds, k, num, last, Cycle(line, shown, deleted, quit, output), s.ranges) ==
        Run(g, cmds, 0, num, last, Fresh(start, quiet), old(s.ranges))
    {
      var c := cmds[k];
      var selected := s.InRange(g, c, k, num, line, last);
      if selected {
        match c.cmd {
          case 's' =>
            if c.arg != "" {
              var (result, changed) := g.substitute(line, c.arg, c.flags);
              line := result;
              if changed && 'p' in c.flags {
                output := output + [line];
              }
            }
          case 'y' =>
            if c.arg != "" {
              line := Transliterate(line, c.arg);
            }
          case 'd' =>
            deleted := true;
            shown := false;
          case 'p' =>
            output := output + [line];
          case 'q' =>
            if shown && !deleted {
              output := output + [line];
            }
            shown := false;
            quit := true;
          case '=' =>
            output := output + [Decimal(num)];
          case 'i' =>
            if c.arg != "" {
              output := output + [c.arg];
            }
          case 'c' =>
            if c.arg != "" {
              output := output + [c.arg];
            }
            deleted := true;
            shown := false;
          case _ =>
        }
      }
      k := k + 1;
      if deleted || quit {
        break;
      }
    }
    x := Cycle(line, shown, deleted, quit, output);
  }

  method Transliterate(line: string, arg: string) returns (r: string)
    ensures r == Transliterated(line, arg)
  {
    var source, dest := Before(arg, '\0'), SecondPart(arg, '\0');
    if source == "" || dest == "" || |source| != |dest| {
      return line;
    }
    var table: map<char, char> := map[];
    for i := 0 to |source|
      invariant forall c :: (if c in table then table[c] else c) == Replacement(source[..i], dest[..i], c)
    {
      assert source[..i + 1][..i] == source[..i] && dest[..i + 1][..i] == dest[..i];
      table := table[source[i] := dest[i]];
    }
    assert source[..|source|] == source && dest[..|source|] == dest;
    r := seq(|line|, i requires 0 <= i < |line| => if line[i] in table then table[line[i]] else line[i]);
  }

  method AppendTexts(g: Engine, cmds: seq<Command>, num: nat, line: string, last: nat, s: RangeState)
      returns (texts: seq<string>)
    modifies s
    ensures (texts, s.ranges) == Appended(g, cmds, 0, num, line, last, old(s.ranges))
  {
    texts := [];
    ghost var goal := Appended(g, cmds, 0, num, line, last, s.ranges);
    assert [] + goal.0 == goal.0;
    for k := 0 to |cmds|
      invariant var (later, r) := Appended(g, cmds, k, num, line, last, s.ranges); goal == (texts + later, r)
    {
      if cmds[k].cmd == 'a' && line != "" {
        ghost var later := Appended(g, cmds, k, num, line, last, s.ranges).0;
        var selected := s.InRange(g, cmds[k], k, num, line, last);
        if selected && cmds[k].arg != "" {
          assert texts + later == (texts + [cmds[k].arg]) + later[1..];
          texts := texts + [cmds[k].arg];
        }
      }
    }
    assert texts + [] == texts;
  }

  method ProcessLine(g: Engine, lines: seq<string>, cmds: seq<Command>, quiet: bool, i: nat, s: RangeState)
      returns (out: seq<string>, quit: bool)
    requires i < |lines|
    modifies s
    ensures (out, quit, s.ranges) == LineOutput(g, cmds, quiet, lines, i, old(s.ranges))
  {
    var x := RunCommands(g, cmds, i + 1, |lines|, lines[i], quiet, s);
    out := x.out;
    if x.shown && !x.deleted {
      out := out + [x.line];
    }
    var texts := AppendTexts(g, cmds, i + 1, lines[i], |lines|, s);
    out := out + texts;
    quit := x.quit;
  }

  method ProcessLines(g: Engine, lines: seq<string>, cmds: seq<Command>, quiet: bool) returns (output: seq<string>)
    ensures output == Output(g, cmds, quiet, lines, 0, map[])
  {
    output := [];
    var s := new RangeState();
    ghost var goal := Output(g, cmds, quiet, lines, 0, map[]);
    assert [] + goal == goal;
    var i := 0;
    while i < |lines|
      invariant 0 <= i <= |lines|
      invariant fresh(s) && goal == output + Output(g, cmds, quiet, lines, i, s.ranges)
    {
      var out, quit := ProcessLine(g, lines, cmds, quiet, i, s);
      if quit {
        return output + out;
      }
      Regroup(output, out, Output(g, cmds, quiet, lines, i + 1, s.ranges));
      output := output + out;
      i := i + 1;
    }
    assert output + [] == output;
  }

  // ---------------------------------------------------------------------------
  // Ranges select the maximal intervals of their automaton

  /** Is the range open before line i, when it is asked about every line? */
  function OpenBefore(opens: seq<bool>, closes: seq<bool>, i: nat): bool
    requires i <= |opens| == |closes|
  {
    if i == 0 then false
    else if OpenBefore(opens, closes, i - 1) then !closes[i - 1]
    else opens[i - 1]
  }

  function SelectedAt(opens: seq<bool>, closes: seq<bool>, i: nat): bool
    requires i < |opens| == |closes|
  {
    OpenBefore(opens, closes, i) || opens[i]
  }

  /** The first true place from i on, or the end. */
  function NextTrue(b: seq<bool>, i: nat): (j: nat)
    requires i <= |b|
    ensures i <= j <= |b|
    ensures j < |b| ==> b[j]
    ensures forall k :: i <= k < j ==> !b[k]
    decreases |b| - i
  {
    if i == |b| || b[i] then i else NextTrue(b, i + 1)
  }

  /** Intervals [from, to): each opens at the first line from where the last one ended that
      the first address matches, and lasts up to and including the next line, after that one,
      that the second address matches, or to the end. */
  function Intervals(opens: seq<bool>, closes: seq<bool>, i: nat): (r: seq<(nat, nat)>)
    requires i <= |opens| == |closes|
    decreases |opens| - i
  {
    var from := NextTrue(opens, i);
    if from == |opens| then []
    else
      var last := NextTrue(closes, from + 1);
      var to := if last < |closes| then last + 1 else last;
      [(from, to)] + Intervals(opens, closes, to)
  }

  predicate InSome(intervals: seq<(nat, nat)>, i: nat) {
    exists k :: 0 <= k < |intervals| && intervals[k].0 <= i < intervals[k].1
  }

  lemma StaysClosed(opens: seq<bool>, closes: seq<bool>, i: nat, j: nat)
    requires i <= j <= |opens| == |closes| && !OpenBefore(opens, closes, i)
    requires forall k :: i <= k < j ==> !opens[k]
    ensures !OpenBefore(opens, closes, j)
  {
    if i < j {
      StaysClosed(opens, closes, i, j - 1);
    }
  }

  lemma StaysOpen(opens: seq<bool>, closes: seq<bool>, i: nat, j: nat)
    requires i < j <= |opens| == |closes| && !OpenBefore(opens, closes, i) && opens[i]
    requires forall k :: i < k < j ==> !closes[k]
    ensures OpenBefore(opens, closes, j)
  {
    if i + 1 < j {
      StaysOpen(opens, closes, i, j - 1);
    }
  }

  /** A line is selected exactly when it lies in one of the intervals. */
  lemma {:induction false} SelectedIffInInterval(opens: seq<bool>, closes: seq<bool>, start: nat, i: nat)
    requires start <= i < |opens| == |closes| && !OpenBefore(opens, closes, start)
    ensures SelectedAt(opens, closes, i) <==> InSome(Intervals(opens, closes, start), i)
    decreases |opens| - start
  {
    var from := NextTrue(opens, start);
    var intervals := Intervals(opens, closes, start);
    if from == |opens| {
      StaysClosed(opens, closes, start, i);
    } else {
      StaysClosed(opens, closes, start, from);
      var last := NextTrue(closes, from + 1);
      var to := if last < |closes| then last + 1 else last;
      var later := Intervals(opens, closes, to);
      assert intervals == [(from, to)] + later;
      IntervalsStart(opens, closes, to);
      if i < from {
        StaysClosed(opens, closes, start, i);
      } else if i < to {
        assert intervals[0].0 <= i < intervals[0].1;
        if i > from {
          StaysOpen(opens, closes, from, i);
        }
      } else {
        StaysOpen(opens, closes, from, last);
        SelectedIffInInterval(opens, closes, to, i);
        SomeOfMore((from, to), later, i);
      }
    }
  }

  lemma SomeOfMore(first: (nat, nat), later: seq<(nat, nat)>, i: nat)
    requires i >= first.1
    ensures InSome([first] + later, i) <==> InSome(later, i)
  {
    var all := [first] + later;
    if k :| 0 <= k < |later| && later[k].0 <= i < later[k].1 {
      assert all[k + 1] == later[k];
    }
    if k :| 0 <= k < |all| && all[k].0 <= i < all[k].1 {
      assert later[k - 1] == all[k];
    }
  }

  lemma {:induction false} IntervalsStart(opens: seq<bool>, closes: seq<bool>, i: nat)
    requires i <= |opens| == |closes|
    ensures forall k :: 0 <= k < |Intervals(opens, closes, i)| ==> i <= Intervals(opens, closes, i)[k].0
    decreases |opens| - i
  {
    var from := NextTrue(opens, i);
    if from < |opens| {
      var last := NextTrue(closes, from + 1);
      IntervalsStart(opens, closes, if last < |closes| then last + 1 else last);
    }
  }

  // ---------------------------------------------------------------------------
  // Scripts of one command

  /** Where an address matches. */
  function Hits(g: Engine, a: Option<Address>, lines: seq<string>): seq<bool> {
    seq(|lines|, i requires 0 <= i < |lines| => a.None? || Matches(g, a.value, i + 1, lines[i], |lines|))
  }

  /** Is line i chosen by the command's address or range? */
  function Chosen(g: Engine, c: Command, lines: seq<string>, i: nat): bool
    requires i < |lines|
  {
    if c.address.None? || c.address2.None? then Hits(g, c.address, lines)[i]
    else SelectedAt(Hits(g, c.address, lines), Hits(g, c.address2, lines), i)
  }

  /** The range is as open as it should be before line i. */
  ghost predicate Tracks(g: Engine, c: Command, lines: seq<string>, i: nat, r: Ranges)
    requires i <= |lines|
  {
    c.address.Some? && c.address2.Some? ==>
      Open(r, 0) == OpenBefore(Hits(g, c.address, lines), Hits(g, c.address2, lines), i)
  }

  lemma AskedIsChosen(g: Engine, c: Command, lines: seq<string>, i: nat, r: Ranges)
    requires i < |lines| && Tracks(g, c, lines, i, r)
    ensures var (selected, r') := Asked(g, c, 0, i + 1, lines[i], |lines|, r);
      selected == Chosen(g, c, lines, i) && Tracks(g, c, lines, i + 1, r')
  {
  }

  function ChosenFlags(g: Engine, c: Command, lines: seq<string>): (r: seq<bool>)
    ensures |r| == |lines|
  {
    seq(|lines|, i requires 0 <= i < |lines| => Chosen(g, c, lines, i))
  }

  /** The lines from i on that are flagged like this. */
  function Where(flags: seq<bool>, lines: seq<string>, i: nat, flag: bool): seq<string>
    requires i <= |flags| == |lines|
    decreases |lines| - i
  {
    if i == |lines| then []
    else (if flags[i] == flag then [lines[i]] else []) + Where(flags, lines, i + 1, flag)
  }

  /** The run of a script of one command that appends nothing. */
  lemma OneCommand(g: Engine, c: Command, quiet: bool, lines: seq<string>, i: nat, r: Ranges)
    requires i < |lines| && c.cmd != 'a'
    ensures var (selected, r') := Asked(g, c, 0, i + 1, lines[i], |lines|, r);
      var x := if selected then Act(g, c, i + 1, Fresh(lines[i], quiet)) else Fresh(lines[i], quiet);
      LineOutput(g, [c], quiet, lines, i, r) ==
        (if x.shown && !x.deleted then x.out + [x.line] else x.out, x.quit, r')
  {
    var (selected, r') := Asked(g, [c][0], 0, i + 1, lines[i], |lines|, r);
    var x := if selected then Act(g, c, i + 1, Fresh(lines[i], quiet)) else Fresh(lines[i], quiet);
    assert Run(g, [c], 1, i + 1, |lines|, x, r') == (x, r');
    assert Run(g, [c], 0, i + 1, |lines|, Fresh(lines[i], quiet), r) == (x, r');
    assert Appended(g, [c], 1, i + 1, lines[i], |lines|, r') == ([], r');
    var out := if x.shown && !x.deleted then x.out + [x.line] else x.out;
    assert out + [] == out;
  }

  lemma PrintsOne(g: Engine, c: Command, lines: seq<string>, i: nat, r: Ranges)
    requires i < |lines| && c.cmd == 'p' && Tracks(g, c, lines, i, r)
    ensures var (out, quit, r') := LineOutput(g, [c], true, lines, i, r);
      && out == (if Chosen(g, c, lines, i) then [lines[i]] else [])
      && !quit && Tracks(g, c, lines, i + 1, r')
  {
    AskedIsChosen(g, c, lines, i, r);
    OneCommand(g, c, true, lines, i, r);
  }

  lemma {:induction false} PrintsChosen(g: Engine, c: Command, lines: seq<string>, i: nat, r: Ranges)
    requires i <= |lines| && c.cmd == 'p' && Tracks(g, c, lines, i, r)
    ensures Output(g, [c], true, lines, i, r) == Where(ChosenFlags(g, c, lines), lines, i, true)
    decreases |lines| - i
  {
    if i == |lines| {
    } else {
      PrintsOne(g, c, lines, i, r);
      PrintsChosen(g, c, lines, i + 1, LineOutput(g, [c], true, lines, i, r).2);
    }
  }

  lemma DeletesOne(g: Engine, c: Command, lines: seq<string>, i: nat, r: Ranges)
    requires i < |lines| && c.cmd == 'd' && Tracks(g, c, lines, i, r)
    ensures var (out, quit, r') := LineOutput(g, [c], false, lines, i, r);
      && out == (if Chosen(g, c, lines, i) then [] else [lines[i]])
      && !quit && Tracks(g, c, lines, i + 1, r')
  {
    AskedIsChosen(g, c, lines, i, r);
    OneCommand(g, c, false, lines, i, r);
  }

  lemma {:induction false} DeletesChosen(g: Engine, c: Command, lines: seq<string>, i: nat, r: Ranges)
    requires i <= |lines| && c.cmd == 'd' && Tracks(g, c, lines, i, r)
    ensures Output(g, [c], false, lines, i, r) == Where(ChosenFlags(g, c, lines), lines, i, false)
    decreases |lines| - i
  {
    if i == |lines| {
    } else {
      DeletesOne(g, c, lines, i, r);
      DeletesChosen(g, c, lines, i + 1, LineOutput(g, [c], false, lines, i, r).2);
    }
  }

  /** Takes the next line from one list or the other, as flagged. */
  function Woven(flags: seq<bool>, yes: seq<string>, no: seq<string>): seq<string> {
    if flags == [] then yes + no
    else if flags[0] then if yes == [] then no else [yes[0]] + Woven(flags[1..], yes[1..], no)
    else if no == [] then yes else [no[0]] + Woven(flags[1..], yes, no[1..])
  }

  lemma WovenStep(flag: bool, line: string, flags: seq<bool>, yes: seq<string>, no: seq<string>)
    ensures Woven([flag] + flags, (if flag then [line] else []) + yes, (if !flag then [line] else []) + no)
      == [line] + Woven(flags, yes, no)
  {
    assert ([flag] + flags)[1..] == flags && [] + yes == yes && [] + no == no;
    assert ([line] + yes)[1..] == yes && ([line] + no)[1..] == no;
  }

  lemma {:induction false} WovenBack(flags: seq<bool>, lines: seq<string>, i: nat)
    requires i <= |flags| == |lines|
    ensures Woven(flags[i..], Where(flags, lines, i, true), Where(flags, lines, i, false)) == lines[i..]
    decreases |lines| - i
  {
    if i == |lines| {
      assert flags[i..] == [] && lines[i..] == [];
    } else {
      WovenBack(flags, lines, i + 1);
      assert flags[i..] == [flags[i]] + flags[i + 1..] && lines[i..] == [lines[i]] + lines[i + 1..];
      WovenStep(flags[i], lines[i], flags[i + 1..], Where(flags, lines, i + 1, true),
                Where(flags, lines, i + 1, false));
    }
  }

  /** `-n 'A p'` and `'A d'` part the input: woven together as the address chooses, the two
      outputs are the lines again, in order. */
  lemma PrintAndDeletePart(g: Engine, address: Option<Address>, address2: Option<Address>, lines: seq<string>)
    ensures var p, d := Command(address, address2, 'p', "", ""), Command(address, address2, 'd', "", "");
      var shown, left := Output(g, [p], true, lines, 0, map[]), Output(g, [d], false, lines, 0, map[]);
      && Woven(ChosenFlags(g, p, lines), shown, left) == lines
      && shown == Where(ChosenFlags(g, p, lines), lines, 0, true)
      && left == Where(ChosenFlags(g, p, lines), lines, 0, false)
  {
    var p, d := Command(address, address2, 'p', "", ""), Command(address, address2, 'd', "", "");
    PrintsChosen(g, p, lines, 0, map[]);
    DeletesChosen(g, d, lines, 0, map[]);
    assert ChosenFlags(g, p, lines) == ChosenFlags(g, d, lines);
    var flags := ChosenFlags(g, p, lines);
    WovenBack(flags, lines, 0);
    assert flags[0..] == flags && lines[0..] == lines;
  }

  // ---------------------------------------------------------------------------
  // Numeric addresses

  lemma {:induction false} NumericOpen(g: Engine, a: nat, b: nat, lines: seq<string>, i: nat)
    requires i <= |lines|
    ensures OpenBefore(Hits(g, Some(Line(a)), lines), Hits(g, Some(Line(b)), lines), i) <==>
            1 <= a <= i && (b <= a || i < b)
  {
    if i == 0 {
    } else {
      NumericOpen(g, a, b, lines, i - 1);
    }
  }

  /** A range a,b of line numbers selects the lines from a to b, and all from a on when b is
      not after a. */
  lemma NumericRange(g: Engine, c: Command, a: nat, b: nat, lines: seq<string>, i: nat)
    requires i < |lines| && c.address == Some(Line(a)) && c.address2 == Some(Line(b))
    ensures Chosen(g, c, lines, i) <==> 1 <= a <= i + 1 && (i + 1 <= b || b <= a)
  {
    NumericOpen(g, a, b, lines, i);
  }

  predicate SomeBefore(hits: seq<bool>, i: nat)
    requires i <= |hits|
  {
    exists j :: 0 <= j < i && hits[j]
  }

  /** A range to line number b opened at place k, on a line that is not before b.  (On line b
      itself a range opened before is closed instead.) */
  predicate OpensLate(hits: seq<bool>, b: nat, k: nat)
    requires k < |hits|
  {
    hits[k] && k + 1 >= b && (k + 1 == b ==> !SomeBefore(hits, k))
  }

  predicate SomeLate(hits: seq<bool>, b: nat, i: nat)
    requires i <= |hits|
  {
    exists k :: 0 <= k < i && OpensLate(hits, b, k)
  }

  /** The rule of POSIX for a range to line number b: it stays open up to line b, and one that
      would open on line b or later is that line only. */
  predicate PosixOpenBefore(hits: seq<bool>, b: nat, i: nat)
    requires i <= |hits|
  {
    i > 0 && if PosixOpenBefore(hits, b, i - 1) then i != b else hits[i - 1] && i < b
  }

  predicate PosixChosen(hits: seq<bool>, b: nat, i: nat)
    requires i < |hits|
  {
    PosixOpenBefore(hits, b, i) || hits[i]
  }

  lemma SomeBeforeStep(hits: seq<bool>, i: nat)
    requires i < |hits|
    ensures SomeBefore(hits, i + 1) <==> SomeBefore(hits, i) || hits[i]
  {
  }

  lemma SomeLateStep(hits: seq<bool>, b: nat, i: nat)
    requires i < |hits|
    ensures SomeLate(hits, b, i + 1) <==> SomeLate(hits, b, i) || OpensLate(hits, b, i)
    ensures i < b ==> !SomeLate(hits, b, i)
  {
  }

  lemma {:induction false} PosixIsOpen(hits: seq<bool>, b: nat, i: nat)
    requires i <= |hits|
    ensures PosixOpenBefore(hits, b, i) <==> i < b && SomeBefore(hits, i)
  {
    if i > 0 {
      PosixIsOpen(hits, b, i - 1);
      SomeBeforeStep(hits, i - 1);
    }
  }

  /** Before line b the code has the range open as POSIX does, and from line b on exactly when
      one opened late. */
  lemma {:induction false} NumberedOpen(hits: seq<bool>, closes: seq<bool>, b: nat, i: nat)
    requires i <= |hits| == |closes| && forall k :: 0 <= k < |closes| ==> closes[k] == (k + 1 == b)
    ensures OpenBefore(hits, closes, i) <==> (i < b && SomeBefore(hits, i)) || SomeLate(hits, b, i)
  {
    if i > 0 {
      NumberedOpen(hits, closes, b, i - 1);
      SomeBeforeStep(hits, i - 1);
      SomeLateStep(hits, b, i - 1);
    }
  }

  /** Lines after a range opened late all match the first address again. */
  predicate LateAllHit(hits: seq<bool>, b: nat) {
    forall k, i :: 0 <= k < i < |hits| && OpensLate(hits, b, k) ==> hits[i]
  }

  /** A range whose second address is a number, from any first address: the code selects what
      POSIX does on every line exactly when every line after a range opened late matches the
      first address too. */
  lemma RangeIsPosixIff(g: Engine, c: Command, b: nat, lines: seq<string>)
    requires c.address.Some? && c.address2 == Some(Line(b))
    ensures var hits := Hits(g, c.address, lines);
      LateAllHit(hits, b) <==>
      forall i :: 0 <= i < |lines| ==> Chosen(g, c, lines, i) == PosixChosen(hits, b, i)
  {
    var hits, closes := Hits(g, c.address, lines), Hits(g, c.address2, lines);
    forall i | 0 <= i < |lines|
      ensures Chosen(g, c, lines, i) == PosixChosen(hits, b, i) <==> (SomeLate(hits, b, i) ==> hits[i])
    {
      NumberedOpen(hits, closes, b, i);
      PosixIsOpen(hits, b, i);
      SomeLateStep(hits, b, i);
    }
    if forall i :: 0 <= i < |lines| ==> Chosen(g, c, lines, i) == PosixChosen(hits, b, i) {
      forall k, i | 0 <= k < i < |hits| && OpensLate(hits, b, k) ensures hits[i] {
        assert SomeLate(hits, b, i);
        assert Chosen(g, c, lines, i) == PosixChosen(hits, b, i);
      }
    }
  }

  /** Of two line numbers, POSIX has the lines from one to the other, or only the first. */
  lemma PosixNumericRange(g: Engine, a: nat, b: nat, lines: seq<string>, i: nat)
    requires a >= 1 && i < |lines|
    ensures PosixChosen(Hits(g, Some(Line(a)), lines), b, i) <==> a <= i + 1 <= if b <= a then a else b
  {
    var hits := Hits(g, Some(Line(a)), lines);
    PosixIsOpen(hits, b, i);
    assert a <= i ==> hits[a - 1];
  }

  /** Of two line numbers, the code agrees with POSIX exactly when the second is after the first
      or no line follows the first. */
  lemma NumericRangeIsPosixIff(g: Engine, c: Command, a: nat, b: nat, lines: seq<string>)
    requires c.address == Some(Line(a)) && c.address2 == Some(Line(b)) && a >= 1
    ensures a < b || a >= |lines| <==>
      forall i :: 0 <= i < |lines| ==> Chosen(g, c, lines, i) == PosixChosen(Hits(g, c.address, lines), b, i)
  {
    var hits := Hits(g, c.address, lines);
    RangeIsPosixIff(g, c, b, lines);
    if b <= a < |lines| {
      assert OpensLate(hits, b, a - 1) && !hits[a];
    }
  }

  lemma QuitsOne(g: Engine, n: nat, lines: seq<string>, i: nat, r: Ranges)
    requires i < |lines|
    ensures LineOutput(g, [QuitAt(n)], false, lines, i, r) == ([lines[i]], i + 1 == n, r)
  {
    OneCommand(g, QuitAt(n), false, lines, i, r);
    assert Fresh(lines[i], false).out + [lines[i]] == [lines[i]];
  }

  function QuitAt(n: nat): Command {
    Command(Some(Line(n)), None, 'q', "", "")
  }

  /** `nq` prints the first n lines, and all of them if there are fewer. */
  lemma {:induction false} QuitsAfter(g: Engine, n: nat, lines: seq<string>, i: nat, r: Ranges)
    requires i <= |lines| && i < n
    ensures Output(g, [QuitAt(n)], false, lines, i, r) == lines[i..if n <= |lines| then n else |lines|]
    decreases |lines| - i
  {
    if i < |lines| {
      var end := if n <= |lines| then n else |lines|;
      QuitsOne(g, n, lines, i, r);
      assert lines[i..end] == [lines[i]] + lines[i + 1..end];
      if i + 1 < n {
        QuitsAfter(g, n, lines, i + 1, r);
      }
    }
  }
}
