/** parseArgs, from rom/lib/args.ts. */
module Args {
  // The nested loops over arguments and letters, the recursive reading of a command line they
  // compute, and what can be read back.

  import opened Options
  import opened Sequences

  datatype Spec = Spec(short: Option<string>, long: Option<string>, value: bool, required: bool,
                       default: Option<Value>)

  /** A flag's value: a string, or a boolean. */
  datatype Value = Flag(on: bool) | Text(text: string)

  datatype Parsed = Parsed(flags: map<string, Value>, positional: seq<string>,
                           unknown: seq<string>, errors: seq<string>)

  /** The lookup maps and the options. */
  datatype Config = Config(specs: map<string, Spec>, shorts: map<string, string>, longs: map<string, string>,
                           stop: bool, numeric: Option<string>)

  // ---------------------------------------------------------------------------
  // Reading a command line, as a recursive function

  function IndexOf(s: string, c: char): (i: int)
    ensures -1 <= i < |s|
    ensures i >= 0 ==> s[i] == c && c !in s[..i]
    ensures i < 0 ==> c !in s
  {
    if s == "" then -1
    else if s[0] == c then 0
    else
      var i := IndexOf(s[1..], c);
      if i < 0 then -1 else i + 1
  }

  predicate Dashed(s: string) {
    "-" <= s
  }

  /** /^-(\d+)$/ */
  predicate IsNumeric(s: string) {
    |s| > 1 && Dashed(s) && forall k :: 1 <= k < |s| ==> '0' <= s[k] <= '9'
  }

  predicate ReadsAsNumber(c: Config, arg: string) {
    c.numeric.Some? && IsNumeric(arg)
  }

  function Set(r: Parsed, key: string, v: Value): Parsed {
    r.(flags := r.flags[key := v])
  }

  /** A flag that takes a value and has none attached: the next argument is its value unless
      it starts with a dash. */
  function TakeNext(spec: Spec, key: string, name: string, next: Option<string>, r: Parsed): (Parsed, bool) {
    if next.Some? && !Dashed(next.value) then (Set(r, key, Text(next.value)), true)
    else if spec.required then (r.(errors := r.errors + [name + " requires a value"]), false)
    else (Set(r, key, Flag(true)), false)
  }

  /** What an argument of flags does: the result, whether it used up the next argument, and
      whether it ends the reading of flags. */
  datatype Effect = Effect(out: Parsed, tookNext: bool, ends: bool)

  function ReadLong(c: Config, arg: string, next: Option<string>, r: Parsed): Effect
    requires "--" <= arg
  {
    var eq := IndexOf(arg, '=');
    var name := if eq != -1 then arg[2..eq] else arg[2..];
    if name !in c.longs then
      if c.stop then Effect(r, false, true) else Effect(r.(unknown := r.unknown + [arg]), false, false)
    else
      var key := c.longs[name];
      if key !in c.specs then Effect(r, false, false)
      else if !c.specs[key].value then Effect(Set(r, key, Flag(true)), false, false)
      else if eq != -1 then Effect(Set(r, key, Text(arg[eq + 1..])), false, false)
      else
        var (out, took) := TakeNext(c.specs[key], key, "--" + name, next, r);
        Effect(out, took, false)
  }

  function ReadLetters(c: Config, w: string, next: Option<string>, r: Parsed): Effect {
    if w == "" then Effect(r, false, false)
    else if [w[0]] !in c.shorts then
      if c.stop then Effect(r, false, true)
      else ReadLetters(c, w[1..], next, r.(unknown := r.unknown + ["-" + [w[0]]]))
    else
      var key := c.shorts[[w[0]]];
      if key !in c.specs then ReadLetters(c, w[1..], next, r)
      else if !c.specs[key].value then ReadLetters(c, w[1..], next, Set(r, key, Flag(true)))
      else if |w| > 1 then Effect(Set(r, key, Text(w[1..])), false, false)
      else
        var (out, took) := TakeNext(c.specs[key], key, "-" + [w[0]], next, r);
        Effect(out, took, false)
  }

  predicate IsPositional(arg: string) {
    !Dashed(arg) || arg == "-"
  }

  /** An argument that is neither positional nor "--". */
  function ReadFlags(c: Config, arg: string, next: Option<string>, r: Parsed): Effect
    requires !IsPositional(arg)
  {
    if "--" <= arg then ReadLong(c, arg, next, r)
    else if ReadsAsNumber(c, arg) then Effect(Set(r, c.numeric.value, Text(arg[1..])), false, false)
    else ReadLetters(c, arg[1..], next, r)
  }

  function First(args: seq<string>): Option<string> {
    if args == [] then None else Some(args[0])
  }

  /** Reads the arguments; `only` says that flags are not read any more. */
  function Read(c: Config, args: seq<string>, only: bool, r: Parsed): Parsed
    decreases |args|
  {
    if args == [] then r
    else if args[0] == "--" then Read(c, args[1..], true, r)
    else if only || IsPositional(args[0]) then
      Read(c, args[1..], only || c.stop, r.(positional := r.positional + [args[0]]))
    else
      var e := ReadFlags(c, args[0], First(args[1..]), r);
      if e.ends then e.out.(positional := e.out.positional + args)
      else Read(c, args[if e.tookNext && |args| > 1 then 2 else 1..], false, e.out)
  }

  // ---------------------------------------------------------------------------
  // The lookup maps

  function ShortKeys(entries: seq<(string, Spec)>): map<string, string> {
    if entries == [] then map[]
    else
      var m, (key, spec) := ShortKeys(entries[..|entries| - 1]), entries[|entries| - 1];
      if spec.short.Some? then m[spec.short.value := key] else m
  }

  function LongKeys(entries: seq<(string, Spec)>): map<string, string> {
    if entries == [] then map[]
    else
      var m, (key, spec) := LongKeys(entries[..|entries| - 1]), entries[|entries| - 1];
      if spec.long.Some? then m[spec.long.value := key] else m
  }

  function Defaults(entries: seq<(string, Spec)>): map<string, Value> {
    if entries == [] then map[]
    else
      var m, (key, spec) := Defaults(entries[..|entries| - 1]), entries[|entries| - 1];
      if spec.default.Some? then m[key := spec.default.value] else m
  }

  function SpecsOf(entries: seq<(string, Spec)>): map<string, Spec> {
    if entries == [] then map[]
    else SpecsOf(entries[..|entries| - 1])[entries[|entries| - 1].0 := entries[|entries| - 1].1]
  }

  function ConfigOf(entries: seq<(string, Spec)>, stop: bool, numeric: Option<string>): Config {
    Config(SpecsOf(entries), ShortKeys(entries), LongKeys(entries), stop, numeric)
  }

  /** The keys of a record are distinct. */
  predicate Distinct(entries: seq<(string, Spec)>) {
    forall i, j :: 0 <= i < j < |entries| ==> entries[i].0 != entries[j].0
  }

  lemma {:induction false} SpecKeys(entries: seq<(string, Spec)>, key: string)
    ensures key in SpecsOf(entries) <==> exists i :: 0 <= i < |entries| && entries[i].0 == key
  {
    if entries == [] {
    } else {
      var before := entries[..|entries| - 1];
      SpecKeys(before, key);
      if i :| 0 <= i < |entries| && entries[i].0 == key {
        assert i < |before| ==> before[i].0 == key;
      }
    }
  }

  lemma SpecsGrow(entries: seq<(string, Spec)>)
    requires Distinct(entries) && entries != []
    ensures var before := entries[..|entries| - 1];
      Distinct(before) && entries[|entries| - 1].0 !in SpecsOf(before)
  {
    SpecKeys(entries[..|entries| - 1], entries[|entries| - 1].0);
  }

  /** A name is in the map of long names exactly when some specification has it, and leads to
      one that does. */
  lemma {:induction false} LongKeysAreExact(entries: seq<(string, Spec)>, name: string)
    requires Distinct(entries)
    ensures name in LongKeys(entries) <==> exists k :: k in SpecsOf(entries) && SpecsOf(entries)[k].long == Some(name)
    ensures name in LongKeys(entries) ==>
      var k := LongKeys(entries)[name]; k in SpecsOf(entries) && SpecsOf(entries)[k].long == Some(name)
  {
    if entries == [] {
    } else {
      var before := entries[..|entries| - 1];
      SpecsGrow(entries);
      LongKeysAreExact(before, name);
      if k :| k in SpecsOf(entries) && SpecsOf(entries)[k].long == Some(name) {
        assert k != entries[|entries| - 1].0 ==> k in SpecsOf(before) && SpecsOf(before)[k].long == Some(name);
        assert name in LongKeys(entries);
      }
      if name in LongKeys(entries) {
        var k := LongKeys(entries)[name];
        assert name in LongKeys(before) ==> LongKeys(before)[name] in SpecsOf(before);
        assert k in SpecsOf(entries);
        assert SpecsOf(entries)[k].long == Some(name);
      }
    }
  }

  lemma {:induction false} ShortKeysAreExact(entries: seq<(string, Spec)>, name: string)
    requires Distinct(entries)
    ensures name in ShortKeys(entries) <==> exists k :: k in SpecsOf(entries) && SpecsOf(entries)[k].short == Some(name)
    ensures name in ShortKeys(entries) ==>
      var k := ShortKeys(entries)[name]; k in SpecsOf(entries) && SpecsOf(entries)[k].short == Some(name)
  {
    if entries == [] {
    } else {
      var before := entries[..|entries| - 1];
      SpecsGrow(entries);
      ShortKeysAreExact(before, name);
      if k :| k in SpecsOf(entries) && SpecsOf(entries)[k].short == Some(name) {
        assert k != entries[|entries| - 1].0 ==> k in SpecsOf(before) && SpecsOf(before)[k].short == Some(name);
        assert name in ShortKeys(entries);
      }
      if name in ShortKeys(entries) {
        var k := ShortKeys(entries)[name];
        assert name in ShortKeys(before) ==> ShortKeys(before)[name] in SpecsOf(before);
        assert k in SpecsOf(entries);
        assert SpecsOf(entries)[k].short == Some(name);
      }
    }
  }

  /** A flag has a value before any argument is read exactly when its specification gives a
      default, and that is the value. */
  lemma {:induction false} DefaultsAreExact(entries: seq<(string, Spec)>, key: string)
    requires Distinct(entries)
    ensures key in Defaults(entries) <==> key in SpecsOf(entries) && SpecsOf(entries)[key].default.Some?
    ensures key in Defaults(entries) ==> Defaults(entries)[key] == SpecsOf(entries)[key].default.value
  {
    if entries != [] {
      SpecsGrow(entries);
      DefaultsAreExact(entries[..|entries| - 1], key);
      SpecKeys(entries[..|entries| - 1], entries[|entries| - 1].0);
      DefaultsAreExact(entries[..|entries| - 1], entries[|entries| - 1].0);
    }
  }

  /** The specifications are those given. */
  lemma {:induction false} SpecsAreGiven(entries: seq<(string, Spec)>, i: nat)
    requires Distinct(entries) && i < |entries|
    ensures entries[i].0 in SpecsOf(entries) && SpecsOf(entries)[entries[i].0] == entries[i].1
  {
    if i < |entries| - 1 {
      SpecsGrow(entries);
      SpecsAreGiven(entries[..|entries| - 1], i);
    }
  }

  // ---------------------------------------------------------------------------
  // The loops

  /** The letters of one argument. */
  method ParseLetters(c: Config, letters: string, next: Option<string>, start: Parsed) returns (e: Effect)
    ensures e == ReadLetters(c, letters, next, start)
  {
    var r, j := start, 0;
    while j < |letters|
      invariant 0 <= j <= |letters|
      invariant ReadLetters(c, letters[j..], next, r) == ReadLetters(c, letters, next, start)
    {
      var letter := [letters[j]];
      assert letters[j..][1..] == letters[j + 1..] && letters[j..][0] == letters[j];
      if letter !in c.shorts {
        if c.stop {
          return Effect(r, false, true);
        }
        r := r.(unknown := r.unknown + ["-" + letter]);
        j := j + 1;
        continue;
      }
      var key := c.shorts[letter];
      if key !in c.specs {
        j := j + 1;
        continue;
      }
      if c.specs[key].value {
        var rest := letters[j + 1..];
        if |rest| > 0 {
          return Effect(Set(r, key, Text(rest)), false, false);
        }
        if next.Some? && !Dashed(next.value) {
          return Effect(Set(r, key, Text(next.value)), true, false);
        } else if c.specs[key].required {
          r := r.(errors := r.errors + ["-" + letter + " requires a value"]);
        } else {
          r := Set(r, key, Flag(true));
        }
        return Effect(r, false, false);
      }
      r := Set(r, key, Flag(true));
      j := j + 1;
    }
    e := Effect(r, false, false);
  }

  method ParseArgs(args: seq<string>, entries: seq<(string, Spec)>, stop: bool, numeric: Option<string>)
      returns (result: Parsed)
    ensures result ==
      Read(ConfigOf(entries, stop, numeric), args, false, Parsed(Defaults(entries), [], [], []))
  {
    var shorts: map<string, string>, longs: map<string, string> := map[], map[];
    var specs: map<string, Spec>, flags: map<string, Value> := map[], map[];
    for n := 0 to |entries|
      invariant shorts == ShortKeys(entries[..n]) && longs == LongKeys(entries[..n])
      invariant specs == SpecsOf(entries[..n]) && flags == Defaults(entries[..n])
    {
      var (key, spec) := entries[n];
      assert entries[..n + 1][..n] == entries[..n];
      if spec.short.Some? {
        shorts := shorts[spec.short.value := key];
      }
      if spec.long.Some? {
        longs := longs[spec.long.value := key];
      }
      if spec.default.Some? {
        flags := flags[key := spec.default.value];
      }
      specs := specs[key := spec];
    }
    assert entries[..|entries|] == entries;
    var c := Config(specs, shorts, longs, stop, numeric);
    ghost var start := Parsed(flags, [], [], []);
    result := Parsed(flags, [], [], []);
    var i, positionalOnly := 0, false;
    while i < |args|
      invariant 0 <= i <= |args|
      invariant Read(c, args[i..], positionalOnly, result) == Read(c, args, false, start)
    {
      var arg := args[i];
      assert args[i..][1..] == args[i + 1..];
      if arg == "--" {
        positionalOnly := true;
        i := i + 1;
        continue;
      }
      if positionalOnly || IsPositional(arg) {
        result := result.(positional := result.positional + [arg]);
        if stop {
          positionalOnly := true;
        }
        i := i + 1;
        continue;
      }
      var next := if i + 1 < |args| then Some(args[i + 1]) else None;
      assert next == First(args[i + 1..]);
      var e;
      if "--" <= arg {
        e := ParseLong(c, arg, next, result);
      } else if numeric.Some? && IsNumeric(arg) {
        e := Effect(Set(result, numeric.value, Text(arg[1..])), false, false);
      } else {
        e := ParseLetters(c, arg[1..], next, result);
      }
      if e.ends {
        return e.out.(positional := e.out.positional + args[i..]);
      }
      result := e.out;
      if e.tookNext && i + 1 < |args| {
        assert args[i..][2..] == args[i + 2..];
        i := i + 1;
      }
      i := i + 1;
    }
  }

  /** One argument that starts with two dashes. */
  method ParseLong(c: Config, arg: string, next: Option<string>, start: Parsed) returns (e: Effect)
    requires "--" <= arg
    ensures e == ReadLong(c, arg, next, start)
  {
    var eq := IndexOf(arg, '=');
    var name := if eq != -1 then arg[2..eq] else arg[2..];
    if name !in c.longs {
      if c.stop {
        return Effect(start, false, true);
      }
      return Effect(start.(unknown := start.unknown + [arg]), false, false);
    }
    var key := c.longs[name];
    if key !in c.specs {
      return Effect(start, false, false);
    }
    if !c.specs[key].value {
      return Effect(Set(start, key, Flag(true)), false, false);
    }
    if eq != -1 {
      return Effect(Set(start, key, Text(arg[eq + 1..])), false, false);
    }
    if next.Some? && !Dashed(next.value) {
      return Effect(Set(start, key, Text(next.value)), true, false);
    }
    if c.specs[key].required {
      return Effect(start.(errors := start.errors + ["--" + name + " requires a value"]), false, false);
    }
    return Effect(Set(start, key, Flag(true)), false, false);
  }

  // ---------------------------------------------------------------------------
  // Positionals and "--"

  function WithoutMarkers(args: seq<string>): (r: seq<string>)
    ensures "--" !in r
    ensures r == args <==> "--" !in args
    ensures |r| <= |args|
  {
    if args == [] then []
    else if args[0] == "--" then WithoutMarkers(args[1..])
    else [args[0]] + WithoutMarkers(args[1..])
  }

  /** After the end of flags every further "--" is dropped too, not only the first. */
  lemma {:induction false} OnlyPositionals(c: Config, args: seq<string>, r: Parsed)
    ensures Read(c, args, true, r) == r.(positional := r.positional + WithoutMarkers(args))
  {
    if args == [] {
      assert r.positional + [] == r.positional;
    } else if args[0] == "--" {
      OnlyPositionals(c, args[1..], r);
    } else {
      var r' := r.(positional := r.positional + [args[0]]);
      OnlyPositionals(c, args[1..], r');
      assert r'.positional + WithoutMarkers(args[1..]) == r.positional + ([args[0]] + WithoutMarkers(args[1..]));
    }
  }

  lemma PlusCancels(a: seq<string>, b: seq<string>, c: seq<string>)
    ensures a + b == a + c <==> b == c
  {
    assert (a + b)[|a|..] == b && (a + c)[|a|..] == c;
  }

  lemma StopsAtFirst(c: Config, args: seq<string>, r: Parsed)
    requires c.stop && args != [] && IsPositional(args[0])
    ensures Read(c, args, false, r) == r.(positional := r.positional + WithoutMarkers(args))
  {
    OnlyPositionals(c, args[1..], r.(positional := r.positional + [args[0]]));
    Regroup(r.positional, [args[0]], WithoutMarkers(args[1..]));
  }

  /** With stopAtFirstPositional, the arguments from the first positional on are taken as they
      are exactly when no "--" is among them. */
  lemma StopsIff(c: Config, args: seq<string>, r: Parsed)
    requires c.stop && args != [] && IsPositional(args[0])
    ensures Read(c, args, false, r).positional == r.positional + args <==> "--" !in args
  {
    StopsAtFirst(c, args, r);
    PlusCancels(r.positional, WithoutMarkers(args), args);
  }

  // ---------------------------------------------------------------------------
  // Writing a command line that is read back

  /** One way to give a flag. */
  datatype Given =
    | LongOn(name: string)
    | LongWith(name: string, value: string)
    | LongNext(name: string, value: string)
    | ShortOn(letter: char)
    | ShortWith(letter: char, value: string)
    | ShortNext(letter: char, value: string)

  function Written(g: Given): (r: seq<string>)
    ensures r != [] && Dashed(r[0])
  {
    match g
    case LongOn(name) => ["--" + name]
    case LongWith(name, value) => ["--" + name + "=" + value]
    case LongNext(name, value) => ["--" + name, value]
    case ShortOn(letter) => [['-', letter]]
    case ShortWith(letter, value) => [['-', letter] + value]
    case ShortNext(letter, value) => [['-', letter], value]
  }

  /** --flags, the marker, positionals */
  function CommandLine(given: seq<Given>, positionals: seq<string>): (r: seq<string>)
    ensures r != [] && Dashed(r[0])
  {
    if given == [] then ["--"] + positionals else Written(given[0]) + CommandLine(given[1..], positionals)
  }

  function KeyOf(c: Config, g: Given): Option<string> {
    if g.LongOn? || g.LongWith? || g.LongNext? then
      if g.name in c.longs then Some(c.longs[g.name]) else None
    else if [g.letter] in c.shorts then Some(c.shorts[[g.letter]]) else None
  }

  /** The letters of a short flag's argument. */
  function LettersOf(g: Given): string
    requires g.ShortOn? || g.ShortWith? || g.ShortNext?
  {
    [g.letter] + if g.ShortWith? then g.value else ""
  }

  /** With the numeric shorthand, digits after a dash are a number. */
  predicate MeansNumber(c: Config, w: string) {
    c.numeric.Some? && forall k :: 0 <= k < |w| ==> '0' <= w[k] <= '9'
  }

  lemma NumbersAreDigits(c: Config, w: string)
    requires w != ""
    ensures ReadsAsNumber(c, "-" + w) <==> MeansNumber(c, w)
  {
    var arg := "-" + w;
    assert forall k :: 1 <= k < |arg| ==> arg[k] == w[k - 1];
    assert forall k :: 0 <= k < |w| ==> w[k] == arg[k + 1];
  }

  /** What the arguments demand to be read as they are meant: the flag is known, takes a value
      exactly when it is given one (it may go without one if it is not required), a long name
      has no '=', a value after the flag has no leading dash, and a short flag does not look
      like a number. */
  predicate Meant(c: Config, g: Given) {
    && KeyOf(c, g).Some? && KeyOf(c, g).value in c.specs
    && var spec := c.specs[KeyOf(c, g).value];
    && (if g.LongOn? || g.ShortOn? then spec.value ==> !spec.required else spec.value)
    && (g.LongOn? || g.LongWith? || g.LongNext? ==> '=' !in g.name && (g.LongWith? || g.name != ""))
    && (g.ShortOn? || g.ShortWith? || g.ShortNext? ==> g.letter != '-' && !MeansNumber(c, LettersOf(g)))
    && (g.LongNext? || g.ShortNext? ==> !Dashed(g.value))
    && (g.ShortWith? ==> g.value != "")
  }

  function ValueOf(g: Given): Value {
    if g.LongOn? || g.ShortOn? then Flag(true) else Text(g.value)
  }

  function Applied(c: Config, given: seq<Given>, flags: map<string, Value>): map<string, Value>
    requires forall k :: 0 <= k < |given| ==> Meant(c, given[k])
  {
    if given == [] then flags
    else
      var g := given[0];
      assert Meant(c, g);
      Applied(c, given[1..], flags[KeyOf(c, g).value := ValueOf(g)])
  }

  lemma IndexOfFirst(s: string, t: string, c: char)
    requires c !in s
    ensures IndexOf(s + [c] + t, c) == |s|
  {
    var u := s + [c] + t;
    assert u[|s|] == c;
    assert forall k :: 0 <= k < |s| ==> u[k] == s[k];
  }

  /** One argument of flags, then the rest. */
  function ReadOn(c: Config, e: Effect, arg: string, rest: seq<string>): Parsed {
    if e.ends then e.out.(positional := e.out.positional + ([arg] + rest))
    else Read(c, if e.tookNext && rest != [] then rest[1..] else rest, false, e.out)
  }

  lemma ReadOne(c: Config, arg: string, rest: seq<string>, r: Parsed)
    requires !IsPositional(arg) && arg != "--"
    ensures Read(c, [arg] + rest, false, r) == ReadOn(c, ReadFlags(c, arg, First(rest), r), arg, rest)
  {
    var args := [arg] + rest;
    assert args[1..] == rest;
    if rest != [] {
      assert args[2..] == rest[1..];
    }
  }

  /** Is there no argument that could be taken as a value? */
  predicate NoValueNext(args: seq<string>) {
    args == [] || (args[0] != "" && args[0][0] == '-')
  }

  /** Does the flag look for a value it is not given? */
  predicate Waits(c: Config, g: Given)
    requires KeyOf(c, g).Some? && KeyOf(c, g).value in c.specs
  {
    (g.LongOn? || g.ShortOn?) && c.specs[KeyOf(c, g).value].value
  }

  lemma LongEffect(c: Config, g: Given, next: Option<string>, r: Parsed)
    requires Meant(c, g) && (g.LongOn? || g.LongWith? || g.LongNext?)
    requires if g.LongNext? then next == Some(g.value) else Waits(c, g) ==> next.None? || Dashed(next.value)
    ensures ReadFlags(c, Written(g)[0], next, r) == Effect(Set(r, KeyOf(c, g).value, ValueOf(g)), g.LongNext?, false)
    ensures Written(g)[0] != "--"
  {
    var arg := Written(g)[0];
    assert "--" <= arg;
    if g.LongWith? {
      IndexOfFirst("--" + g.name, g.value, '=');
      assert arg[2..|g.name| + 2] == g.name && arg[|g.name| + 3..] == g.value;
      assert arg[|g.name| + 2] == '=';
    } else {
      assert IndexOf(arg, '=') == -1 && arg[2..] == g.name;
    }
  }

  lemma LetterAlone(c: Config, letter: char, next: Option<string>, r: Parsed)
    requires [letter] in c.shorts && c.shorts[[letter]] in c.specs
    ensures var key := c.shorts[[letter]]; var spec := c.specs[key];
      ReadLetters(c, [letter], next, r) ==
        if spec.value then var (out, took) := TakeNext(spec, key, "-" + [letter], next, r); Effect(out, took, false)
        else Effect(Set(r, key, Flag(true)), false, false)
  {
    assert [letter][0] == letter && [letter][1..] == "";
  }

  lemma ShortEffect(c: Config, g: Given, next: Option<string>, r: Parsed)
    requires Meant(c, g) && (g.ShortOn? || g.ShortWith? || g.ShortNext?)
    requires if g.ShortNext? then next == Some(g.value) else Waits(c, g) ==> next.None? || Dashed(next.value)
    ensures ReadFlags(c, Written(g)[0], next, r) == Effect(Set(r, KeyOf(c, g).value, ValueOf(g)), g.ShortNext?, false)
    ensures Written(g)[0] != "--" && !IsPositional(Written(g)[0])
  {
    var arg := Written(g)[0];
    assert arg[1] == g.letter;
    NumbersAreDigits(c, LettersOf(g));
    assert "-" + LettersOf(g) == arg;
    if g.ShortWith? {
      assert arg[1..] == [g.letter] + g.value;
      assert ([g.letter] + g.value)[1..] == g.value;
    } else {
      assert arg[1..] == [g.letter];
      LetterAlone(c, g.letter, next, r);
    }
  }

  lemma FlagIsRead(c: Config, g: Given, rest: seq<string>, r: Parsed)
    requires Meant(c, g) && (Waits(c, g) ==> NoValueNext(rest))
    ensures Read(c, Written(g) + rest, false, r) == Read(c, rest, false, Set(r, KeyOf(c, g).value, ValueOf(g)))
  {
    var arg := Written(g)[0];
    var more := if g.LongNext? || g.ShortNext? then [g.value] + rest else rest;
    assert Written(g) + rest == [arg] + more;
    if g.LongOn? || g.LongWith? || g.LongNext? {
      LongEffect(c, g, First(more), r);
    } else {
      ShortEffect(c, g, First(more), r);
    }
    ReadOne(c, arg, more, r);
    assert g.LongNext? || g.ShortNext? ==> more[1..] == rest;
  }

  /** A written command line is read back: the flags as given, in order, and the positionals,
      without those that are "--". */
  lemma {:induction false} CommandLineIsRead(c: Config, given: seq<Given>, positionals: seq<string>, r: Parsed)
    requires forall k :: 0 <= k < |given| ==> Meant(c, given[k])
    ensures Read(c, CommandLine(given, positionals), false, r) ==
      r.(flags := Applied(c, given, r.flags), positional := r.positional + WithoutMarkers(positionals))
  {
    if given == [] {
      assert (["--"] + positionals)[1..] == positionals;
      OnlyPositionals(c, positionals, r);
    } else {
      var g, rest := given[0], CommandLine(given[1..], positionals);
      FlagIsRead(c, g, rest, r);
      CommandLineIsRead(c, given[1..], positionals, Set(r, KeyOf(c, g).value, ValueOf(g)));
    }
  }

  /** The positionals come back exactly when none of them is "--". */
  lemma RoundTripIff(c: Config, given: seq<Given>, positionals: seq<string>, flags: map<string, Value>)
    requires forall k :: 0 <= k < |given| ==> Meant(c, given[k])
    ensures var r := Read(c, CommandLine(given, positionals), false, Parsed(flags, [], [], []));
      r == Parsed(Applied(c, given, flags), positionals, [], []) <==> "--" !in positionals
  {
    CommandLineIsRead(c, given, positionals, Parsed(flags, [], [], []));
    assert [] + WithoutMarkers(positionals) == WithoutMarkers(positionals);
  }

  // ---------------------------------------------------------------------------
  // Flags and positionals in any order

  /** One thing on a command line: a flag, a positional, a flag that lacks its value, or one that
      no specification has. */
  datatype Item =
    | Giving(g: Given)
    | Naming(text: string)
    | Lacking(g: Given)
    | StrayLong(name: string, value: Option<string>)
    | StrayShort(letter: char)

  function WrittenItem(item: Item): (r: seq<string>)
    ensures r != []
  {
    match item
    case Giving(g) => Written(g)
    case Naming(text) => [text]
    case Lacking(g) => Written(g)
    case StrayLong(name, value) => ["--" + name + if value.Some? then "=" + value.value else ""]
    case StrayShort(letter) => [['-', letter]]
  }

  /** Can the item stand on a line with these specifications? */
  predicate Fits(c: Config, item: Item) {
    match item
    case Giving(g) => Meant(c, g)
    case Naming(text) => text == "" || text[0] != '-' || text == "-"
    case Lacking(g) =>
      && (g.LongOn? || g.ShortOn?) && KeyOf(c, g).Some? && KeyOf(c, g).value in c.specs
      && c.specs[KeyOf(c, g).value].value && c.specs[KeyOf(c, g).value].required
      && (g.LongOn? ==> '=' !in g.name && g.name != "")
      && (g.ShortOn? ==> g.letter != '-' && !MeansNumber(c, [g.letter]))
    case StrayLong(name, value) => '=' !in name && name !in c.longs && (name != "" || value.Some?)
    case StrayShort(letter) => letter != '-' && [letter] !in c.shorts && !MeansNumber(c, [letter])
  }

  function Line(items: seq<Item>, end: seq<string>): seq<string> {
    if items == [] then end else WrittenItem(items[0]) + Line(items[1..], end)
  }

  /** Each item fits, and behind a flag that looks for a value stands none. */
  predicate Readable(c: Config, items: seq<Item>, end: seq<string>) {
    items == [] ||
    (&& Fits(c, items[0])
     && ((items[0].Giving? || items[0].Lacking?) && Waits(c, items[0].g) ==> NoValueNext(Line(items[1..], end)))
     && Readable(c, items[1..], end))
  }

  function GivenOf(items: seq<Item>): seq<Given> {
    if items == [] then [] else (if items[0].Giving? then [items[0].g] else []) + GivenOf(items[1..])
  }

  function NamesOf(items: seq<Item>): seq<string> {
    if items == [] then [] else (if items[0].Naming? then [items[0].text] else []) + NamesOf(items[1..])
  }

  function StraysOf(items: seq<Item>): seq<string> {
    if items == [] then []
    else (if items[0].StrayLong? || items[0].StrayShort? then WrittenItem(items[0]) else []) + StraysOf(items[1..])
  }

  function LacksOf(items: seq<Item>): seq<string> {
    if items == [] then []
    else (if items[0].Lacking? then [Written(items[0].g)[0] + " requires a value"] else []) + LacksOf(items[1..])
  }

  lemma {:induction false} GivenAreMeant(c: Config, items: seq<Item>, end: seq<string>)
    requires Readable(c, items, end)
    ensures forall k :: 0 <= k < |GivenOf(items)| ==> Meant(c, GivenOf(items)[k])
  {
    if items != [] {
      GivenAreMeant(c, items[1..], end);
    }
  }

  /** What the items say: flags, positionals, unknown flags and errors, each in their order. */
  function Said(c: Config, items: seq<Item>, end: seq<string>, r: Parsed): Parsed
    requires Readable(c, items, end)
  {
    GivenAreMeant(c, items, end);
    Parsed(Applied(c, GivenOf(items), r.flags), r.positional + NamesOf(items), r.unknown + StraysOf(items),
           r.errors + LacksOf(items))
  }

  function AfterItem(c: Config, item: Item, r: Parsed): Parsed
    requires Fits(c, item)
  {
    match item
    case Giving(g) => Set(r, KeyOf(c, g).value, ValueOf(g))
    case Naming(text) => r.(positional := r.positional + [text])
    case Lacking(g) => r.(errors := r.errors + [Written(g)[0] + " requires a value"])
    case _ => r.(unknown := r.unknown + WrittenItem(item))
  }

  lemma LackingEffect(c: Config, g: Given, next: Option<string>, r: Parsed)
    requires Fits(c, Lacking(g)) && (next.None? || Dashed(next.value))
    ensures ReadFlags(c, Written(g)[0], next, r) ==
      Effect(r.(errors := r.errors + [Written(g)[0] + " requires a value"]), false, false)
    ensures Written(g)[0] != "--" && !IsPositional(Written(g)[0])
  {
    var arg := Written(g)[0];
    if g.LongOn? {
      assert "--" <= arg && IndexOf(arg, '=') == -1 && arg[2..] == g.name;
    } else {
      assert arg[1] == g.letter && arg[1..] == [g.letter];
      LetterAlone(c, g.letter, next, r);
      assert "-" + [g.letter] == arg;
      NumbersAreDigits(c, [g.letter]);
    }
  }

  lemma StrayEffect(c: Config, item: Item, next: Option<string>, r: Parsed)
    requires (item.StrayLong? || item.StrayShort?) && Fits(c, item)
    ensures var arg := WrittenItem(item)[0];
      && arg != "--" && !IsPositional(arg)
      && ReadFlags(c, arg, next, r) ==
        if c.stop then Effect(r, false, true) else Effect(r.(unknown := r.unknown + [arg]), false, false)
  {
    var arg := WrittenItem(item)[0];
    if item.StrayLong? {
      assert "--" <= arg;
      if item.value.Some? {
        IndexOfFirst("--" + item.name, item.value.value, '=');
        assert arg == "--" + item.name + ['='] + item.value.value;
        assert arg[2..|item.name| + 2] == item.name;
        assert arg[|item.name| + 2] == '=';
      } else {
        assert arg == "--" + item.name;
        assert IndexOf(arg, '=') == -1 && arg[2..] == item.name;
      }
    } else {
      assert arg[1] == item.letter && arg[1..] == [item.letter];
      assert "-" + [item.letter] == arg;
      NumbersAreDigits(c, [item.letter]);
      LetterStray(c, item.letter, next, r);
    }
  }

  lemma LetterStray(c: Config, letter: char, next: Option<string>, r: Parsed)
    requires [letter] !in c.shorts
    ensures ReadLetters(c, [letter], next, r) ==
      if c.stop then Effect(r, false, true) else Effect(r.(unknown := r.unknown + ["-" + [letter]]), false, false)
  {
    var w := [letter];
    assert [w[0]] == w && w[1..] == "";
    assert ReadLetters(c, "", next, r.(unknown := r.unknown + ["-" + w])) ==
      Effect(r.(unknown := r.unknown + ["-" + w]), false, false);
  }

  lemma ItemIsRead(c: Config, item: Item, rest: seq<string>, r: Parsed)
    requires Fits(c, item) && (c.stop ==> item.Giving? || item.Lacking?)
    requires (item.Giving? || item.Lacking?) && Waits(c, item.g) ==> NoValueNext(rest)
    ensures Read(c, WrittenItem(item) + rest, false, r) == Read(c, rest, false, AfterItem(c, item, r))
  {
    match item {
      case Giving(g) =>
        FlagIsRead(c, g, rest, r);
      case Naming(text) =>
        assert ([text] + rest)[1..] == rest;
      case Lacking(g) =>
        LackingEffect(c, g, First(rest), r);
        ReadOne(c, Written(g)[0], rest, r);
      case _ =>
        StrayEffect(c, item, First(rest), r);
        ReadOne(c, WrittenItem(item)[0], rest, r);
        assert WrittenItem(item) == [WrittenItem(item)[0]];
    }
  }

  lemma SaidStep(c: Config, items: seq<Item>, end: seq<string>, r: Parsed)
    requires Readable(c, items, end) && items != []
    ensures Said(c, items, end, r) == Said(c, items[1..], end, AfterItem(c, items[0], r))
  {
    var item, rest := items[0], items[1..];
    Regroup(r.positional, if item.Naming? then [item.text] else [], NamesOf(rest));
    Regroup(r.unknown, if item.StrayLong? || item.StrayShort? then WrittenItem(item) else [], StraysOf(rest));
    Regroup(r.errors, if item.Lacking? then [Written(item.g)[0] + " requires a value"] else [], LacksOf(rest));
    assert r.positional + [] == r.positional && r.unknown + [] == r.unknown && r.errors + [] == r.errors;
    GivenAreMeant(c, items, end);
    GivenAreMeant(c, rest, end);
    if item.Giving? {
      assert GivenOf(items)[1..] == GivenOf(rest);
    } else {
      assert GivenOf(items) == GivenOf(rest);
    }
  }

  /** The items are read in their order, whatever stands behind them. */
  lemma {:induction false} ItemsAreRead(c: Config, items: seq<Item>, end: seq<string>, r: Parsed)
    requires Readable(c, items, end)
    requires c.stop ==> forall k :: 0 <= k < |items| ==> items[k].Giving? || items[k].Lacking?
    ensures Read(c, Line(items, end), false, r) == Read(c, end, false, Said(c, items, end, r))
    decreases |items|
  {
    if items == [] {
      assert r.positional + [] == r.positional && r.unknown + [] == r.unknown && r.errors + [] == r.errors;
    } else {
      ItemIsRead(c, items[0], Line(items[1..], end), r);
      ItemsAreRead(c, items[1..], end, AfterItem(c, items[0], r));
      SaidStep(c, items, end, r);
    }
  }

  /** A command line of flags, positionals, unknown flags and flags without their value, mixed in
      any order, and perhaps a marker and more behind it, comes back: the flags as given, the
      positionals in order with what follows the marker less its "--", the unknown flags, and an
      error for each value that is missing. */
  lemma MixedLineIsRead(c: Config, items: seq<Item>, end: seq<string>, r: Parsed)
    requires Readable(c, items, end) && (end == [] || end[0] == "--")
    requires c.stop ==> forall k :: 0 <= k < |items| ==> items[k].Giving? || items[k].Lacking?
    ensures Read(c, Line(items, end), false, r) == Parsed(
      Said(c, items, end, r).flags,
      r.positional + NamesOf(items) + WithoutMarkers(end),
      r.unknown + StraysOf(items),
      r.errors + LacksOf(items))
  {
    var s := Said(c, items, end, r);
    ItemsAreRead(c, items, end, r);
    if end == [] {
      assert s.positional + [] == s.positional;
    } else {
      OnlyPositionals(c, end[1..], s);
    }
  }

  /** With stopAtFirstPositional an unknown flag ends the reading: it and all that follows it,
      markers too, are taken as they stand. */
  lemma StrayStops(c: Config, items: seq<Item>, stray: Item, rest: seq<string>, r: Parsed)
    requires c.stop && (stray.StrayLong? || stray.StrayShort?) && Fits(c, stray)
    requires Readable(c, items, WrittenItem(stray) + rest)
    requires forall k :: 0 <= k < |items| ==> items[k].Giving? || items[k].Lacking?
    ensures var end := WrittenItem(stray) + rest; var s := Said(c, items, end, r);
      Read(c, Line(items, end), false, r) == s.(positional := s.positional + end)
  {
    var end := WrittenItem(stray) + rest;
    var s := Said(c, items, end, r);
    ItemsAreRead(c, items, end, r);
    StrayEffect(c, stray, First(rest), s);
    ReadOne(c, WrittenItem(stray)[0], rest, s);
    assert end == [WrittenItem(stray)[0]] + rest;
  }

  /** And so does a positional, but without the markers behind it. */
  lemma PositionalStops(c: Config, items: seq<Item>, rest: seq<string>, r: Parsed)
    requires c.stop && rest != [] && (!Dashed(rest[0]) || rest[0] == "-") && Readable(c, items, rest)
    requires forall k :: 0 <= k < |items| ==> items[k].Giving? || items[k].Lacking?
    ensures var s := Said(c, items, rest, r);
      Read(c, Line(items, rest), false, r) == s.(positional := s.positional + WithoutMarkers(rest))
  {
    ItemsAreRead(c, items, rest, r);
    StopsAtFirst(c, rest, Said(c, items, rest, r));
  }

  // ---------------------------------------------------------------------------
  // Clusters

  /** -abc as -a -b -c */
  function Apart(w: string): seq<string> {
    if w == "" then [] else [['-', w[0]]] + Apart(w[1..])
  }

  predicate TakesValue(c: Config, letter: char) {
    [letter] in c.shorts && c.shorts[[letter]] in c.specs && c.specs[c.shorts[[letter]]].value
  }

  /** Does a letter other than the last take a value? */
  predicate EarlyValue(c: Config, w: string) {
    exists k :: 0 <= k < |w| - 1 && TakesValue(c, w[k])
  }

  /** Letters that can stand alone: not a dash, and not a digit where those mean a number. */
  predicate PlainLetters(c: Config, w: string) {
    '-' !in w && (c.numeric.Some? ==> forall k :: 0 <= k < |w| ==> !('0' <= w[k] <= '9'))
  }

  /** What one letter that needs no value does. */
  function Letter(c: Config, letter: char, r: Parsed): Parsed {
    if [letter] !in c.shorts then r.(unknown := r.unknown + ["-" + [letter]])
    else if c.shorts[[letter]] !in c.specs then r
    else Set(r, c.shorts[[letter]], Flag(true))
  }

  lemma LettersStep(c: Config, w: string, next: Option<string>, r: Parsed)
    requires !c.stop && w != "" && !TakesValue(c, w[0])
    ensures ReadLetters(c, w, next, r) == ReadLetters(c, w[1..], next, Letter(c, w[0], r))
  {
  }

  lemma ReadsLetters(c: Config, w: string, next: Option<string>, r: Parsed)
    requires w != "" && PlainLetters(c, w)
    ensures !IsPositional("-" + w) && "-" + w != "--"
    ensures ReadFlags(c, "-" + w, next, r) == ReadLetters(c, w, next, r)
  {
    var arg := "-" + w;
    assert arg[1..] == w && arg[1] == w[0];
  }

  /** A letter that is not the last and takes no value does the same in both spellings. */
  lemma ClusterStep(c: Config, w: string, rest: seq<string>, r: Parsed)
    requires !c.stop && |w| > 1 && PlainLetters(c, w) && !TakesValue(c, w[0])
    ensures Read(c, ["-" + w] + rest, false, r) == Read(c, ["-" + w[1..]] + rest, false, Letter(c, w[0], r))
  {
    var r' := Letter(c, w[0], r);
    ReadsLetters(c, w, First(rest), r);
    ReadsLetters(c, w[1..], First(rest), r');
    LettersStep(c, w, First(rest), r);
    ReadOne(c, "-" + w, rest, r);
    ReadOne(c, "-" + w[1..], rest, r');
    NeverEnds(c, w, First(rest), r);
  }

  lemma {:induction false} NeverEnds(c: Config, w: string, next: Option<string>, r: Parsed)
    requires !c.stop
    ensures !ReadLetters(c, w, next, r).ends
  {
    if w == "" || TakesValue(c, w[0]) {
    } else {
      NeverEnds(c, w[1..], next, Letter(c, w[0], r));
    }
  }

  lemma ApartStep(c: Config, w: string, rest: seq<string>, r: Parsed)
    requires !c.stop && |w| > 1 && PlainLetters(c, w) && !TakesValue(c, w[0])
    ensures Read(c, Apart(w) + rest, false, r) == Read(c, Apart(w[1..]) + rest, false, Letter(c, w[0], r))
  {
    var one, more := [w[0]], Apart(w[1..]) + rest;
    assert "-" + one == ['-', w[0]];
    assert Apart(w) + rest == ["-" + one] + more;
    ReadsLetters(c, one, First(more), r);
    LettersStep(c, one, First(more), r);
    assert one[1..] == "";
    ReadOne(c, "-" + one, more, r);
  }

  /** Without an early value, a cluster means the same as its letters apart. */
  lemma {:induction false} ClusterIsApart(c: Config, w: string, rest: seq<string>, r: Parsed)
    requires !c.stop && w != "" && PlainLetters(c, w) && !EarlyValue(c, w)
    ensures Read(c, ["-" + w] + rest, false, r) == Read(c, Apart(w) + rest, false, r)
  {
    if |w| == 1 {
      assert "-" + w == ['-', w[0]];
      assert Apart(w) == ["-" + w];
    } else {
      ClusterStep(c, w, rest, r);
      ApartStep(c, w, rest, r);
      forall k | 0 <= k < |w[1..]| - 1 ensures !TakesValue(c, w[1..][k]) {
        assert w[1..][k] == w[k + 1];
      }
      ClusterIsApart(c, w[1..], rest, Letter(c, w[0], r));
    }
  }

  /** The flag is on without a value, or something has been reported. */
  predicate NoValue(r: Parsed, key: string, errors: nat) {
    (key in r.flags && r.flags[key] == Flag(true)) || |r.errors| > errors
  }

  /** Letters apart, with nothing but letters behind them, give no flag a value. */
  lemma {:induction false} ApartGivesNoValue(c: Config, w: string, r: Parsed, key: string, errors: nat)
    requires !c.stop && PlainLetters(c, w) && NoValue(r, key, errors) && |r.errors| >= errors
    ensures NoValue(Read(c, Apart(w), false, r), key, errors)
  {
    if w == "" {
    } else {
      var one, more := [w[0]], Apart(w[1..]);
      assert "-" + one == ['-', w[0]] && one[1..] == "";
      ReadsLetters(c, one, First(more), r);
      ReadOne(c, "-" + one, more, r);
      NeverEnds(c, one, First(more), r);
      var e := ReadLetters(c, one, First(more), r);
      assert NoValue(e.out, key, errors) && |e.out.errors| >= errors && !e.tookNext;
      ApartGivesNoValue(c, w[1..], e.out, key, errors);
    }
  }

  lemma EarlyValueDiffers(c: Config, w: string, r: Parsed)
    requires !c.stop && |w| > 1 && PlainLetters(c, w) && TakesValue(c, w[0])
    ensures Read(c, ["-" + w], false, r) != Read(c, Apart(w), false, r)
  {
    var key := c.shorts[[w[0]]];
    var one, more := [w[0]], Apart(w[1..]);
    ReadsLetters(c, w, None, r);
    ReadOne(c, "-" + w, [], r);
    assert ["-" + w] + [] == ["-" + w];
    assert Read(c, ["-" + w], false, r) == Set(r, key, Text(w[1..]));
    assert "-" + one == ['-', w[0]] && [one[0]] == one;
    ReadsLetters(c, one, First(more), r);
    ReadOne(c, "-" + one, more, r);
    LetterAlone(c, w[0], First(more), r);
    var e := ReadLetters(c, one, First(more), r);
    assert NoValue(e.out, key, |r.errors|) && |e.out.errors| >= |r.errors| && !e.tookNext && !e.ends;
    ApartGivesNoValue(c, w[1..], e.out, key, |r.errors|);
  }

  /** -abc reads as -a -b -c exactly when no letter but the last takes a value. */
  lemma {:induction false} ClusterIff(c: Config, w: string, r: Parsed)
    requires !c.stop && w != "" && PlainLetters(c, w)
    ensures Read(c, ["-" + w], false, r) == Read(c, Apart(w), false, r) <==> !EarlyValue(c, w)
  {
    assert ["-" + w] + [] == ["-" + w] && Apart(w) + [] == Apart(w);
    if !EarlyValue(c, w) {
      ClusterIsApart(c, w, [], r);
    } else if TakesValue(c, w[0]) {
      EarlyValueDiffers(c, w, r);
    } else {
      var v := w[1..];
      var k :| 0 <= k < |w| - 1 && TakesValue(c, w[k]);
      assert v[k - 1] == w[k];
      assert ["-" + v] + [] == ["-" + v] && Apart(v) + [] == Apart(v);
      ClusterStep(c, w, [], r);
      ApartStep(c, w, [], r);
      ClusterIff(c, v, Letter(c, w[0], r));
    }
  }

  /** With the numeric shorthand, a dash and digits are the value of its flag. */
  lemma DigitsAreValue(c: Config, d: string, rest: seq<string>, r: Parsed)
    requires c.numeric.Some? && d != "" && forall k :: 0 <= k < |d| ==> '0' <= d[k] <= '9'
    ensures Read(c, ["-" + d] + rest, false, r) == Read(c, rest, false, Set(r, c.numeric.value, Text(d)))
  {
    var arg := "-" + d;
    NumbersAreDigits(c, d);
    assert arg[1] == d[0] != '-' && arg[1..] == d;
    ReadOne(c, arg, rest, r);
  }

  /** A value attached to a flag that takes none is passed over. */
  lemma ValueIsIgnored(c: Config, name: string, value: string, rest: seq<string>, r: Parsed)
    requires '=' !in name && name in c.longs && c.longs[name] in c.specs && !c.specs[c.longs[name]].value
    ensures Read(c, ["--" + name + "=" + value] + rest, false, r)
      == Read(c, rest, false, Set(r, c.longs[name], Flag(true)))
  {
    var arg := "--" + name + "=" + value;
    IndexOfFirst("--" + name, value, '=');
    assert arg == "--" + name + ['='] + value && "--" <= arg && arg[|name| + 2] == '=';
    assert arg[2..|name| + 2] == name;
    ReadOne(c, arg, rest, r);
  }

  /** The numeric shorthand -5 reads as -n 5, where n is the letter of the flag it is for. */
  lemma NumberIsValue(c: Config, arg: string, letter: char, rest: seq<string>, r: Parsed)
    requires ReadsAsNumber(c, arg) && letter != '-'
    requires TakesValue(c, letter) && c.shorts[[letter]] == c.numeric.value
    requires c.numeric.Some? ==> !('0' <= letter <= '9')
    ensures Read(c, [arg] + rest, false, r) == Read(c, [['-', letter], arg[1..]] + rest, false, r)
  {
    assert arg[1] != '-';
    ReadOne(c, arg, rest, r);
    assert "-" + [letter] == ['-', letter];
    assert [['-', letter], arg[1..]] + rest == ["-" + [letter]] + ([arg[1..]] + rest);
    ReadsLetters(c, [letter], Some(arg[1..]), r);
    LetterAlone(c, letter, Some(arg[1..]), r);
    ReadOne(c, "-" + [letter], [arg[1..]] + rest, r);
    assert ([arg[1..]] + rest)[1..] == rest;
  }
}
