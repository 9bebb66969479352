/** Filters on a stream and on a whole file. */
module Streams {
  // uniq (rom/bin/uniq.ts), tail (rom/bin/tail.ts) and cat (rom/bin/cat.ts).

  import opened Numbers
  import opened Options
  import opened Sequences
  import opened Text

  /** A message: an item with text, or something the filters skip. */
  datatype Message = Item(text: string) | Other

  /** The texts of the items. */
  function Items(ms: seq<Message>): seq<string> {
    if ms == [] then []
    else Items(ms[..|ms| - 1]) + if ms[|ms| - 1].Item? then [ms[|ms| - 1].text] else []
  }

  /** What is written to standard output: a line that is printed, or a text passed on. */
  datatype Output = Printed(line: string) | Sent(text: string)

  /** The text a reader of the output gets: printing adds the end of the line. */
  function TextOf(o: Output): string {
    match o
    case Printed(line) => line + "\n"
    case Sent(text) => text
  }

  function TextsOf(os: seq<Output>): (r: seq<string>)
    ensures |r| == |os|
  {
    seq(|os|, k requires 0 <= k < |os| => TextOf(os[k]))
  }

  // ---------------------------------------------------------------------------
  // uniq

  datatype UniqOptions = UniqOptions(showCount: bool, duplicatesOnly: bool, uniqueOnly: bool, key: string -> string)

  datatype Group = Group(line: string, count: nat)

  /** One more line: the last group is counted up, or a new one is begun. */
  function Extended(key: string -> string, gs: seq<Group>, line: string): seq<Group> {
    if gs != [] && key(gs[|gs| - 1].line) == key(line) then
      gs[|gs| - 1 := Group(gs[|gs| - 1].line, gs[|gs| - 1].count + 1)]
    else gs + [Group(line, 1)]
  }

  /** Run-length groups: the first line of every run of equal keys, and how many there are. */
  function Groups(key: string -> string, lines: seq<string>): seq<Group> {
    if lines == [] then [] else Extended(key, Groups(key, lines[..|lines| - 1]), lines[|lines| - 1])
  }

  /** Is a group shown? */
  predicate Wanted(o: UniqOptions, g: Group) {
    !(o.duplicatesOnly && g.count == 1) && !(o.uniqueOnly && g.count > 1)
  }

  /** String(count).padStart(7) */
  function Padded(s: string): string
    decreases 7 - |s|
  {
    if |s| >= 7 then s else Padded(" " + s)
  }

  function WithCount(g: Group, line: string): Output {
    Printed(Padded(Decimal(g.count)) + " " + line)
  }

  /** .replace(/\n$/, '') */
  function WithoutNewline(text: string): string {
    if text != "" && text[|text| - 1] == '\n' then text[..|text| - 1] else text
  }

  /** The output for a group of messages, and for a group of lines. */
  function OfMessages(o: UniqOptions, g: Group): Output {
    if o.showCount then WithCount(g, WithoutNewline(g.line)) else Sent(g.line)
  }

  function OfLines(o: UniqOptions, g: Group): Output {
    if o.showCount then WithCount(g, g.line) else Printed(g.line)
  }

  function Rendered(o: UniqOptions, render: (UniqOptions, Group) -> Output, gs: seq<Group>): seq<Output> {
    if gs == [] then []
    else Rendered(o, render, gs[..|gs| - 1]) + if Wanted(o, gs[|gs| - 1]) then [render(o, gs[|gs| - 1])] else []
  }

  lemma RenderedMore(o: UniqOptions, render: (UniqOptions, Group) -> Output, gs: seq<Group>, g: Group)
    ensures Rendered(o, render, gs + [g]) == Rendered(o, render, gs) + if Wanted(o, g) then [render(o, g)] else []
  {
    assert (gs + [g])[..|gs|] == gs;
  }

  /** The groups with such a count. */
  function Counting(gs: seq<Group>, p: nat -> bool): seq<Group> {
    if gs == [] then []
    else Counting(gs[..|gs| - 1], p) + if p(gs[|gs| - 1].count) then [gs[|gs| - 1]] else []
  }

  function AllRendered(o: UniqOptions, render: (UniqOptions, Group) -> Output, gs: seq<Group>): (r: seq<Output>)
    ensures |r| == |gs| && forall k :: 0 <= k < |r| ==> r[k] == render(o, gs[k])
  {
    seq(|gs|, k requires 0 <= k < |gs| => render(o, gs[k]))
  }

  /** Without -d and -u all groups are written; with -d those that count more than one, with -u
      those that count one, and with both none. */
  lemma {:induction false} OptionsChoose(o: UniqOptions, render: (UniqOptions, Group) -> Output, gs: seq<Group>)
    requires forall k :: 0 <= k < |gs| ==> gs[k].count >= 1
    ensures !o.duplicatesOnly && !o.uniqueOnly ==> Rendered(o, render, gs) == AllRendered(o, render, gs)
    ensures o.duplicatesOnly && !o.uniqueOnly ==>
      Rendered(o, render, gs) == AllRendered(o, render, Counting(gs, n => n > 1))
    ensures !o.duplicatesOnly && o.uniqueOnly ==>
      Rendered(o, render, gs) == AllRendered(o, render, Counting(gs, n => n == 1))
    ensures o.duplicatesOnly && o.uniqueOnly ==> Rendered(o, render, gs) == []
  {
    if gs != [] {
      OptionsChoose(o, render, gs[..|gs| - 1]);
    }
  }

  /** With -c a group's line stands behind its count. */
  lemma CountsAreShown(o: UniqOptions, g: Group)
    requires o.showCount
    ensures OfLines(o, g) == Printed(Padded(Decimal(g.count)) + " " + g.line)
    ensures TextOf(OfMessages(o, Group(g.line + "\n", g.count))) == Padded(Decimal(g.count)) + " " + g.line + "\n"
  {
    assert (g.line + "\n")[..|g.line|] == g.line;
  }

  /** A printed count has blanks in front up to seven places. */
  lemma {:induction false} PaddedIs(s: string)
    ensures var n := if |s| < 7 then 7 - |s| else 0;
      |Padded(s)| == n + |s| && Padded(s)[n..] == s && forall k :: 0 <= k < n ==> Padded(s)[k] == ' '
    decreases 7 - |s|
  {
    if |s| < 7 {
      PaddedIs(" " + s);
      var p, n := Padded(s), 7 - |s|;
      assert p[n - 1..] == " " + s;
      assert p[n..] == p[n - 1..][1..] && p[n - 1] == p[n - 1..][0];
    }
  }

  /** The groups so far: those done, and the one being counted. */
  function WithOpen(done: seq<Group>, prev: Option<string>, count: nat): seq<Group> {
    if prev.Some? then done + [Group(prev.value, count)] else done
  }

  lemma ItemsStep(ms: seq<Message>, i: nat)
    requires i < |ms|
    ensures Items(ms[..i + 1]) == if ms[i].Item? then Items(ms[..i]) + [ms[i].text] else Items(ms[..i])
  {
    assert ms[..i + 1][..i] == ms[..i];
  }

  lemma OpenStep(key: string -> string, lines: seq<string>, text: string, done: seq<Group>, prev: Option<string>,
                 count: nat)
    requires Groups(key, lines) == WithOpen(done, prev, count) && (prev.None? ==> done == [])
    ensures Groups(key, lines + [text]) ==
      if prev.Some? && key(prev.value) == key(text) then WithOpen(done, prev, count + 1)
      else WithOpen(WithOpen(done, prev, count), Some(text), 1)
  {
    GroupsOfMore(key, lines, text);
    if prev.Some? {
      LastCounted(done, prev.value, count);
    }
  }

  /** processStdin of uniq: one pass with the last message and a count. */
  method UniqStdin(o: UniqOptions, ms: seq<Message>) returns (out: seq<Output>)
    ensures out == Rendered(o, OfMessages, Groups(o.key, Items(ms)))
  {
    out := [];
    var prevMsg: Option<string>, count := None, 0;
    ghost var done: seq<Group> := [];
    for i := 0 to |ms|
      invariant out == Rendered(o, OfMessages, done) && (prevMsg.None? ==> done == [])
      invariant Groups(o.key, Items(ms[..i])) == WithOpen(done, prevMsg, count)
    {
      ItemsStep(ms, i);
      if ms[i].Item? {
        var text := ms[i].text;
        OpenStep(o.key, Items(ms[..i]), text, done, prevMsg, count);
        if prevMsg.Some? && o.key(prevMsg.value) == o.key(text) {
          count := count + 1;
        } else {
          if prevMsg.Some? {
            out := OutputItem(o, prevMsg.value, count, out, done);
          }
          done := WithOpen(done, prevMsg, count);
          prevMsg, count := Some(text), 1;
        }
      }
    }
    assert ms[..|ms|] == ms;
    if prevMsg.Some? {
      out := OutputItem(o, prevMsg.value, count, out, done);
    }
  }

  /** outputItem */
  method OutputItem(o: UniqOptions, msg: string, cnt: nat, out: seq<Output>, ghost done: seq<Group>)
      returns (r: seq<Output>)
    requires out == Rendered(o, OfMessages, done)
    ensures r == Rendered(o, OfMessages, done + [Group(msg, cnt)])
  {
    RenderedMore(o, OfMessages, done, Group(msg, cnt));
    if o.duplicatesOnly && cnt == 1 {
      return out;
    }
    if o.uniqueOnly && cnt > 1 {
      return out;
    }
    return out + [OfMessages(o, Group(msg, cnt))];
  }

  lemma GroupsOfMore(key: string -> string, lines: seq<string>, line: string)
    ensures Groups(key, lines + [line]) == Extended(key, Groups(key, lines), line)
  {
    assert (lines + [line])[..|lines|] == lines;
  }

  lemma LastCounted(groups: seq<Group>, line: string, count: nat)
    ensures var all := groups + [Group(line, count)];
      all[|all| - 1 := Group(line, count + 1)] == groups + [Group(line, count + 1)]
  {
  }

  /** processLines of uniq: a list of groups whose last one is counted up. */
  method UniqLines(o: UniqOptions, lines: seq<string>) returns (out: seq<Output>)
    ensures out == Rendered(o, OfLines, Groups(o.key, lines))
  {
    var results: seq<Group> := [];
    for i := 0 to |lines|
      invariant results == Groups(o.key, lines[..i])
    {
      assert lines[..i + 1][..i] == lines[..i];
      var line := lines[i];
      if |results| > 0 && o.key(results[|results| - 1].line) == o.key(line) {
        var last := results[|results| - 1];
        results := results[|results| - 1 := Group(last.line, last.count + 1)];
      } else {
        results := results + [Group(line, 1)];
      }
    }
    assert lines[..|lines|] == lines;
    out := [];
    for k := 0 to |results|
      invariant out == Rendered(o, OfLines, results[..k])
    {
      assert results[..k + 1] == results[..k] + [results[k]];
      RenderedMore(o, OfLines, results[..k], results[k]);
      if Wanted(o, results[k]) {
        out := out + [OfLines(o, results[k])];
      }
    }
    assert results[..|results|] == results;
  }

  // ---------------------------------------------------------------------------
  // What the groups are

  function Times(x: string, n: nat): seq<string> {
    if n == 0 then [] else Times(x, n - 1) + [x]
  }

  function Keys(key: string -> string, lines: seq<string>): (r: seq<string>)
    ensures |r| == |lines| && forall k :: 0 <= k < |r| ==> r[k] == key(lines[k])
  {
    seq(|lines|, k requires 0 <= k < |lines| => key(lines[k]))
  }

  /** Every group's key as often as it counts. */
  function Expanded(key: string -> string, gs: seq<Group>): seq<string> {
    if gs == [] then []
    else Expanded(key, gs[..|gs| - 1]) + Times(key(gs[|gs| - 1].line), gs[|gs| - 1].count)
  }

  /** Groups that are not empty, neighbours with different keys. */
  ghost predicate AreRuns(key: string -> string, gs: seq<Group>) {
    && (forall k :: 0 <= k < |gs| ==> gs[k].count >= 1)
    && (forall k :: 1 <= k < |gs| ==> key(gs[k - 1].line) != key(gs[k].line))
  }

  lemma ExpandedMore(key: string -> string, gs: seq<Group>, g: Group)
    ensures Expanded(key, gs + [g]) == Expanded(key, gs) + Times(key(g.line), g.count)
  {
    assert (gs + [g])[..|gs|] == gs;
  }

  lemma CountedUp(key: string -> string, gs: seq<Group>)
    requires gs != []
    ensures var last := gs[|gs| - 1];
      Expanded(key, gs[|gs| - 1 := Group(last.line, last.count + 1)]) == Expanded(key, gs) + [key(last.line)]
  {
    var done, last := gs[..|gs| - 1], gs[|gs| - 1];
    var more := Group(last.line, last.count + 1);
    assert gs[|gs| - 1 := more] == done + [more] && gs == done + [last];
    ExpandedMore(key, done, last);
    ExpandedMore(key, done, more);
    Regroup(Expanded(key, done), Times(key(last.line), last.count), [key(last.line)]);
  }

  lemma StartedNew(key: string -> string, gs: seq<Group>, line: string)
    ensures Expanded(key, gs + [Group(line, 1)]) == Expanded(key, gs) + [key(line)]
  {
    ExpandedMore(key, gs, Group(line, 1));
    assert Times(key(line), 0) + [key(line)] == [key(line)];
    assert Times(key(line), 1) == [key(line)];
  }

  lemma {:induction false} GroupsExpand(key: string -> string, lines: seq<string>)
    ensures Expanded(key, Groups(key, lines)) == Keys(key, lines)
  {
    if lines == [] {
    } else {
      var rest, line := lines[..|lines| - 1], lines[|lines| - 1];
      GroupsExpand(key, rest);
      var before := Groups(key, rest);
      assert Keys(key, lines) == Keys(key, rest) + [key(line)];
      if before != [] && key(before[|before| - 1].line) == key(line) {
        CountedUp(key, before);
      } else {
        StartedNew(key, before, line);
      }
    }
  }

  lemma {:induction false} GroupsApart(key: string -> string, lines: seq<string>)
    ensures AreRuns(key, Groups(key, lines))
  {
    if lines != [] {
      GroupsApart(key, lines[..|lines| - 1]);
    }
  }

  /** The groups of lines are their run-length encoding: they stand for the same keys in the
      same order. */
  lemma GroupsAreRuns(key: string -> string, lines: seq<string>)
    ensures AreRuns(key, Groups(key, lines)) && Expanded(key, Groups(key, lines)) == Keys(key, lines)
  {
    GroupsApart(key, lines);
    GroupsExpand(key, lines);
  }

  function Total(gs: seq<Group>): nat {
    if gs == [] then 0 else Total(gs[..|gs| - 1]) + gs[|gs| - 1].count
  }

  lemma {:induction false} TimesLength(x: string, n: nat)
    ensures |Times(x, n)| == n && forall k :: 0 <= k < n ==> Times(x, n)[k] == x
  {
    if n > 0 {
      TimesLength(x, n - 1);
    }
  }

  lemma {:induction false} TotalIsLength(key: string -> string, gs: seq<Group>)
    ensures |Expanded(key, gs)| == Total(gs)
  {
    if gs != [] {
      TotalIsLength(key, gs[..|gs| - 1]);
      TimesLength(key(gs[|gs| - 1].line), gs[|gs| - 1].count);
    }
  }

  /** The counts add up to the number of lines. */
  lemma {:induction false} CountsAddUp(key: string -> string, lines: seq<string>)
    ensures Total(Groups(key, lines)) == |lines|
  {
    GroupsAreRuns(key, lines);
    TotalIsLength(key, Groups(key, lines));
  }

  /** The keys and counts of groups. */
  ghost predicate SameRuns(key: string -> string, a: seq<Group>, b: seq<Group>) {
    |a| == |b| && forall k :: 0 <= k < |a| ==> key(a[k].line) == key(b[k].line) && a[k].count == b[k].count
  }

  lemma LastRun(key: string -> string, gs: seq<Group>, n: nat)
    requires AreRuns(key, gs) && gs != [] && n == gs[|gs| - 1].count
    ensures var e, done := Expanded(key, gs), gs[..|gs| - 1];
      && |e| >= n && e[..|e| - n] == Expanded(key, done)
      && (forall j :: |e| - n <= j < |e| ==> e[j] == key(gs[|gs| - 1].line))
      && (|e| == n || e[|e| - n - 1] != key(gs[|gs| - 1].line))
  {
    var e, done, last := Expanded(key, gs), gs[..|gs| - 1], gs[|gs| - 1];
    TimesLength(key(last.line), n);
    assert e == Expanded(key, done) + Times(key(last.line), n);
    if done != [] {
      var d := done[|done| - 1];
      assert d == gs[|gs| - 2] && d.count >= 1 && key(d.line) != key(last.line);
      TimesLength(key(d.line), d.count);
    }
  }

  lemma SameLastCount(key: string -> string, a: seq<Group>, b: seq<Group>)
    requires AreRuns(key, a) && AreRuns(key, b) && a != [] && b != [] && Expanded(key, a) == Expanded(key, b)
    ensures key(a[|a| - 1].line) == key(b[|b| - 1].line) && a[|a| - 1].count == b[|b| - 1].count
  {
    var m, n := a[|a| - 1].count, b[|b| - 1].count;
    var e := Expanded(key, a);
    LastRun(key, a, m);
    LastRun(key, b, n);
    assert e[|e| - 1] == key(a[|a| - 1].line) == key(b[|b| - 1].line);
  }

  lemma PrefixRuns(key: string -> string, gs: seq<Group>)
    requires AreRuns(key, gs) && gs != []
    ensures AreRuns(key, gs[..|gs| - 1])
  {
  }

  lemma {:induction false} SomeRun(key: string -> string, gs: seq<Group>)
    requires AreRuns(key, gs)
    ensures Expanded(key, gs) == [] <==> gs == []
  {
    if gs != [] {
      LastRun(key, gs, gs[|gs| - 1].count);
    }
  }

  /** A list of keys has only one run-length encoding. */
  lemma {:induction false} RunsAreUnique(key: string -> string, a: seq<Group>, b: seq<Group>)
    requires AreRuns(key, a) && AreRuns(key, b) && Expanded(key, a) == Expanded(key, b)
    ensures SameRuns(key, a, b)
  {
    SomeRun(key, a);
    SomeRun(key, b);
    if a != [] {
      SameLastCount(key, a, b);
      LastRun(key, a, a[|a| - 1].count);
      LastRun(key, b, b[|b| - 1].count);
      PrefixRuns(key, a);
      PrefixRuns(key, b);
      RunsAreUnique(key, a[..|a| - 1], b[..|b| - 1]);
    }
  }

  // ---------------------------------------------------------------------------
  // The stream and the file

  /** Lines as the messages that printing them sends. */
  function AsItems(lines: seq<string>): seq<Message> {
    if lines == [] then [] else AsItems(lines[..|lines| - 1]) + [Item(lines[|lines| - 1] + "\n")]
  }

  function Ended(lines: seq<string>): (r: seq<string>)
    ensures |r| == |lines| && forall k :: 0 <= k < |r| ==> r[k] == lines[k] + "\n"
  {
    seq(|lines|, k requires 0 <= k < |lines| => lines[k] + "\n")
  }

  lemma {:induction false} ItemsOfLines(lines: seq<string>)
    ensures Items(AsItems(lines)) == Ended(lines)
  {
    if lines != [] {
      var rest := lines[..|lines| - 1];
      ItemsOfLines(rest);
      var ms := AsItems(lines);
      assert ms[..|ms| - 1] == AsItems(rest);
      assert Ended(lines) == Ended(rest) + [lines[|lines| - 1] + "\n"];
    }
  }

  /** Ends of lines do not change which keys are equal. */
  ghost predicate KeyIgnoresEnds(key: string -> string) {
    forall a, b :: SameEnded(key, a, b)
  }

  ghost predicate SameEnded(key: string -> string, a: string, b: string) {
    key(a + "\n") == key(b + "\n") <==> key(a) == key(b)
  }

  function EndedGroups(gs: seq<Group>): (r: seq<Group>)
    ensures |r| == |gs| && forall k :: 0 <= k < |r| ==> r[k] == Group(gs[k].line + "\n", gs[k].count)
  {
    seq(|gs|, k requires 0 <= k < |gs| => Group(gs[k].line + "\n", gs[k].count))
  }

  lemma EndedMore(key: string -> string, gs: seq<Group>, line: string)
    requires KeyIgnoresEnds(key)
    ensures Extended(key, EndedGroups(gs), line + "\n") == EndedGroups(Extended(key, gs, line))
  {
    if gs != [] {
      assert SameEnded(key, gs[|gs| - 1].line, line);
    }
  }

  lemma {:induction false} GroupsOfEnded(key: string -> string, lines: seq<string>)
    requires KeyIgnoresEnds(key)
    ensures Groups(key, Ended(lines)) == EndedGroups(Groups(key, lines))
  {
    if lines != [] {
      var rest, line := lines[..|lines| - 1], lines[|lines| - 1];
      GroupsOfEnded(key, rest);
      assert Ended(lines)[..|lines| - 1] == Ended(rest);
      EndedMore(key, Groups(key, rest), line);
    }
  }

  lemma EndIsStripped(line: string)
    ensures WithoutNewline(line + "\n") == line
  {
  }

  lemma {:induction false} RenderedAlike(o: UniqOptions, gs: seq<Group>)
    ensures TextsOf(Rendered(o, OfMessages, EndedGroups(gs))) == TextsOf(Rendered(o, OfLines, gs))
  {
    if gs != [] {
      var rest, g := gs[..|gs| - 1], gs[|gs| - 1];
      RenderedAlike(o, rest);
      assert EndedGroups(gs)[..|gs| - 1] == EndedGroups(rest);
      var g' := EndedGroups(gs)[|gs| - 1];
      EndIsStripped(g.line);
      assert TextOf(OfMessages(o, g')) == TextOf(OfLines(o, g));
      TextsOfMore(Rendered(o, OfMessages, EndedGroups(rest)), OfMessages(o, g'));
      TextsOfMore(Rendered(o, OfLines, rest), OfLines(o, g));
    }
  }

  lemma TextsOfMore(os: seq<Output>, x: Output)
    ensures TextsOf(os + [x]) == TextsOf(os) + [TextOf(x)]
    ensures TextsOf(os + []) == TextsOf(os)
  {
    assert os + [] == os;
  }

  /** uniq of a stream of lines writes what uniq of a file with those lines writes, with every
      option. */
  lemma UniqStreamIsFile(o: UniqOptions, lines: seq<string>)
    requires KeyIgnoresEnds(o.key)
    ensures TextsOf(Rendered(o, OfMessages, Groups(o.key, Items(AsItems(lines))))) ==
      TextsOf(Rendered(o, OfLines, Groups(o.key, lines)))
  {
    ItemsOfLines(lines);
    GroupsOfEnded(o.key, lines);
    RenderedAlike(o, Groups(o.key, lines));
  }

  // ---------------------------------------------------------------------------
  // uniq of uniq

  function FirstLines(gs: seq<Group>): (r: seq<string>)
    ensures |r| == |gs| && forall k :: 0 <= k < |r| ==> r[k] == gs[k].line
  {
    seq(|gs|, k requires 0 <= k < |gs| => gs[k].line)
  }

  function Ones(lines: seq<string>): (r: seq<Group>)
    ensures |r| == |lines| && forall k :: 0 <= k < |r| ==> r[k] == Group(lines[k], 1)
  {
    seq(|lines|, k requires 0 <= k < |lines| => Group(lines[k], 1))
  }

  lemma {:induction false} ApartLinesStay(key: string -> string, lines: seq<string>)
    requires forall k :: 1 <= k < |lines| ==> key(lines[k - 1]) != key(lines[k])
    ensures Groups(key, lines) == Ones(lines)
  {
    if lines != [] {
      var rest := lines[..|lines| - 1];
      ApartLinesStay(key, rest);
      assert Ones(lines) == Ones(rest) + [Group(lines[|lines| - 1], 1)];
      if rest != [] {
        assert rest[|rest| - 1] == lines[|lines| - 2];
      }
    }
  }

  /** Filtering again finds every line on its own: uniq is idempotent. */
  lemma UniqIsIdempotent(key: string -> string, lines: seq<string>)
    ensures var once := FirstLines(Groups(key, lines));
      Groups(key, once) == Ones(once) && FirstLines(Groups(key, once)) == once
  {
    GroupsAreRuns(key, lines);
    ApartLinesStay(key, FirstLines(Groups(key, lines)));
  }

  // ---------------------------------------------------------------------------
  // tail

  function LastN<T>(s: seq<T>, n: nat): seq<T> {
    if |s| <= n then s else s[|s| - n..]
  }

  lemma PushAndShift<T>(s: seq<T>, x: T, n: nat)
    ensures var pushed := LastN(s, n) + [x];
      LastN(s + [x], n) == if |pushed| > n then pushed[1..] else pushed
  {
  }

  /** processStdin of tail: a queue of at most maxLines messages, passed on unchanged. */
  method TailStdin(ms: seq<Message>, maxLines: nat) returns (out: seq<Output>)
    ensures out == AllSent(LastN(Items(ms), maxLines))
  {
    var buffer: seq<string> := [];
    for i := 0 to |ms|
      invariant buffer == LastN(Items(ms[..i]), maxLines)
    {
      ItemsStep(ms, i);
      if ms[i].Item? {
        PushAndShift(Items(ms[..i]), ms[i].text, maxLines);
        buffer := buffer + [ms[i].text];
        if |buffer| > maxLines {
          buffer := buffer[1..];
        }
      }
    }
    assert ms[..|ms|] == ms;
    out := [];
    for k := 0 to |buffer|
      invariant out == AllSent(buffer[..k])
    {
      out := out + [Sent(buffer[k])];
    }
    assert buffer[..|buffer|] == buffer;
  }

  function AllSent(texts: seq<string>): (r: seq<Output>)
    ensures |r| == |texts| && forall k :: 0 <= k < |r| ==> r[k] == Sent(texts[k])
  {
    seq(|texts|, k requires 0 <= k < |texts| => Sent(texts[k]))
  }

  function AllPrinted(lines: seq<string>): (r: seq<Output>)
    ensures |r| == |lines| && forall k :: 0 <= k < |r| ==> r[k] == Printed(lines[k])
  {
    seq(|lines|, k requires 0 <= k < |lines| => Printed(lines[k]))
  }

  /** The lines of a text: its pieces, without an empty one at the end. */
  function Lines(text: string): seq<string> {
    var pieces := Split(text, '\n');
    if pieces[|pieces| - 1] == "" then pieces[..|pieces| - 1] else pieces
  }

  /** processFile of tail: the last lines of the file. */
  method TailFile(content: string, maxLines: nat) returns (out: seq<Output>)
    ensures out == AllPrinted(LastN(Lines(content), maxLines))
  {
    var allLines := Split(content, '\n');
    if allLines[|allLines| - 1] == "" {
      allLines := allLines[..|allLines| - 1];
    }
    var start := if |allLines| > maxLines then |allLines| - maxLines else 0;
    var output := allLines[start..];
    assert output == LastN(Lines(content), maxLines);
    out := [];
    for k := 0 to |output|
      invariant out == AllPrinted(output[..k])
    {
      out := out + [Printed(output[k])];
    }
    assert output[..|output|] == output;
  }

  // ---------------------------------------------------------------------------
  // cat

  function Flat(chunks: seq<string>): string {
    if chunks == [] then "" else Flat(chunks[..|chunks| - 1]) + chunks[|chunks| - 1]
  }

  /** Text that is added is split with the last piece before it. */
  lemma SplitMore(a: string, b: string, sep: char)
    ensures var pieces := Split(a, sep);
      Split(a + b, sep) == pieces[..|pieces| - 1] + Split(pieces[|pieces| - 1] + b, sep)
  {
    var i := LastIndexOf(a, sep);
    if i < 0 {
      SplitPlain(a, sep);
      assert [a][..0] == [];
      assert [] + Split(a + b, sep) == Split(a + b, sep);
    } else {
      var x, y := a[..i], a[i + 1..];
      assert a == x + [sep] + y;
      Regroup(x + [sep], y, b);
      SplitConcat(x, y, sep);
      SplitPlain(y, sep);
      SplitConcat(x, y + b, sep);
      assert (Split(x, sep) + [y])[..|Split(x, sep)|] == Split(x, sep);
    }
  }

  lemma ChunkStep(chunks: seq<string>, i: nat, shown: seq<string>, buffer: string)
    requires i < |chunks| && Split(Flat(chunks[..i]), '\n') == shown + [buffer]
    ensures Split(Flat(chunks[..i + 1]), '\n') == shown + Split(buffer + chunks[i], '\n')
  {
    assert chunks[..i + 1][..i] == chunks[..i];
    assert (shown + [buffer])[..|shown|] == shown;
    SplitMore(Flat(chunks[..i]), chunks[i], '\n');
  }

  lemma LinesOfPieces(text: string, shown: seq<string>, buffer: string)
    requires Split(text, '\n') == shown + [buffer]
    ensures Lines(text) == if buffer == "" then shown else shown + [buffer]
  {
    assert (shown + [buffer])[..|shown|] == shown;
  }

  /** catFile, on decoded text in whatever chunks it arrives: complete lines are printed, and
      what is left over is kept, and printed at the end. */
  method CatFile(chunks: seq<string>) returns (out: seq<Output>)
    ensures out == AllPrinted(Lines(Flat(chunks)))
  {
    out := [];
    var buffer := "";
    ghost var shown: seq<string> := [];
    for i := 0 to |chunks|
      invariant out == AllPrinted(shown) && Split(Flat(chunks[..i]), '\n') == shown + [buffer]
    {
      ChunkStep(chunks, i, shown, buffer);
      buffer := buffer + chunks[i];
      var lines := Split(buffer, '\n');
      var remaining := lines[|lines| - 1];
      lines := lines[..|lines| - 1];
      Regroup(shown, lines, [remaining]);
      assert lines + [remaining] == Split(buffer, '\n');
      buffer := remaining;
      out := PrintAll(lines, out, shown);
      shown := shown + lines;
    }
    assert chunks[..|chunks|] == chunks;
    LinesOfPieces(Flat(chunks), shown, buffer);
    if |buffer| > 0 {
      out := PrintAll([buffer], out, shown);
    }
  }

  method PrintAll(lines: seq<string>, out: seq<Output>, ghost shown: seq<string>) returns (r: seq<Output>)
    requires out == AllPrinted(shown)
    ensures r == AllPrinted(shown + lines)
  {
    r := out;
    for k := 0 to |lines|
      invariant r == AllPrinted(shown + lines[..k])
    {
      r := r + [Printed(lines[k])];
      assert shown + lines[..k + 1] == (shown + lines[..k]) + [lines[k]];
    }
    assert lines[..|lines|] == lines;
  }

  /** The text that is written, put together. */
  function Written(os: seq<Output>): string {
    if os == [] then "" else Written(os[..|os| - 1]) + TextOf(os[|os| - 1])
  }

  lemma WrittenMore(os: seq<Output>, x: Output)
    ensures Written(os + [x]) == Written(os) + TextOf(x)
  {
    assert (os + [x])[..|os|] == os;
  }

  lemma PrintedMore(lines: seq<string>, line: string)
    ensures AllPrinted(lines + [line]) == AllPrinted(lines) + [Printed(line)]
  {
  }

  lemma {:induction false} WrittenLines(lines: seq<string>)
    ensures Written(AllPrinted(lines)) == if lines == [] then "" else Join(lines, '\n') + "\n"
  {
    if lines != [] {
      var rest, line := lines[..|lines| - 1], lines[|lines| - 1];
      assert lines == rest + [line];
      WrittenLines(rest);
      PrintedMore(rest, line);
      WrittenMore(AllPrinted(rest), Printed(line));
      if rest != [] {
        JoinMore(rest, line, '\n');
      }
    }
  }

  lemma {:induction false} JoinMore(parts: seq<string>, x: string, sep: char)
    requires parts != []
    ensures Join(parts + [x], sep) == Join(parts, sep) + [sep] + x
  {
    assert (parts + [x])[1..] == parts[1..] + [x];
    if |parts| == 1 {
      assert Join([x], sep) == x;
    } else {
      JoinMore(parts[1..], x, sep);
    }
  }

  lemma JoinedEnd(lines: seq<string>)
    requires lines != []
    ensures Join(lines + [""], '\n') == Join(lines, '\n') + "\n"
  {
    JoinMore(lines, "", '\n');
  }

  lemma EndedPieces(text: string)
    requires text != "" && text[|text| - 1] == '\n'
    ensures Lines(text) != [] && Split(text, '\n') == Lines(text) + [""]
  {
    LastPiece(text);
    DropLast(Split(text, '\n'));
  }

  lemma DropLast(pieces: seq<string>)
    requires pieces != []
    ensures pieces == pieces[..|pieces| - 1] + [pieces[|pieces| - 1]]
    ensures |pieces| == 1 ==> pieces == [pieces[0]]
  {
  }

  lemma EndedText(text: string)
    requires text == "" || text[|text| - 1] == '\n'
    ensures Written(AllPrinted(Lines(text))) == text
  {
    WrittenLines(Lines(text));
    if text != "" {
      EndedPieces(text);
      JoinOfSplit(text, '\n');
      JoinedEnd(Lines(text));
    }
  }

  lemma OpenText(text: string)
    requires text != "" && text[|text| - 1] != '\n'
    ensures Written(AllPrinted(Lines(text))) == text + "\n"
  {
    LastPiece(text);
    WrittenLines(Lines(text));
    JoinOfSplit(text, '\n');
  }

  /** cat writes a file's exact contents exactly when the file is empty or its last line is
      ended: otherwise it adds the end. */
  lemma CatPreservesIff(text: string)
    ensures Written(AllPrinted(Lines(text))) == text <==> text == "" || text[|text| - 1] == '\n'
  {
    if text == "" || text[|text| - 1] == '\n' {
      EndedText(text);
    } else {
      OpenText(text);
      assert |text + "\n"| == |text| + 1;
    }
  }

  lemma {:induction false} LastPiece(text: string)
    ensures var pieces := Split(text, '\n');
      pieces[|pieces| - 1] == "" <==> text == "" || text[|text| - 1] == '\n'
    ensures Split(text, '\n') == [""] <==> text == ""
  {
    if text != "" {
      LastPiece(text[1..]);
    }
  }

  /** `cat f | tail -n N` writes what `tail -n N f` writes. */
  lemma CatThenTail(text: string, n: nat)
    ensures TextsOf(AllSent(LastN(TextsOf(AllPrinted(Lines(text))), n))) == TextsOf(AllPrinted(LastN(Lines(text), n)))
  {
  }
}
