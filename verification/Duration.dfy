/** Durations, from rom/lib/format.ts: the reader `ms` and the writers formatMs and
    formatMsLong, with real arithmetic for JavaScript's numbers. */
module Duration {
  import opened Numbers
  import opened Text

  // ---------------------------------------------------------------------------
  // The reader: the matches of its regular expression, one after the other

  datatype Unit = Year | Week | Day | Hour | Minute | Second | Milli

  /** Milliseconds of a unit. */
  function Size(u: Unit): nat {
    match u
    case Year => 31_536_000_000
    case Week => 604_800_000
    case Day => 86_400_000
    case Hour => 3_600_000
    case Minute => 60_000
    case Second => 1000
    case Milli => 1
  }

  /** A number of a unit, in milliseconds. */
  function Worth(value: real, u: Unit): real {
    match u
    case Year => 31_536_000_000.0 * value
    case Week => 604_800_000.0 * value
    case Day => 86_400_000.0 * value
    case Hour => 3_600_000.0 * value
    case Minute => 60_000.0 * value
    case Second => 1000.0 * value
    case Milli => value
  }

  function LowerCase(c: char): char {
    if 'A' <= c <= 'Z' then c - 'A' + 'a' else c
  }

  /** Does the text start with this word, whatever the case? */
  predicate Starts(s: string, word: string) {
    |word| <= |s| && forall k :: 0 <= k < |word| ==> LowerCase(s[k]) == word[k]
  }

  /** The alternatives for a unit.  The letters s, m, h, d, w and y stand before the longer
      words that begin with them, so those words are never reached and are not listed. */
  const ALTERNATIVES: seq<(string, Unit)> :=
    [("ms", Milli), ("milliseconds", Milli), ("millisecond", Milli), ("s", Second), ("m", Minute), ("h", Hour),
     ("d", Day), ("w", Week), ("y", Year)]

  /** The first alternative that fits, and its length; milliseconds when none does. */
  function UnitIn(alternatives: seq<(string, Unit)>, s: string): (r: (nat, Unit))
    ensures r.0 <= |s|
  {
    if alternatives == [] then (0, Milli)
    else if Starts(s, alternatives[0].0) then (|alternatives[0].0|, alternatives[0].1)
    else UnitIn(alternatives[1..], s)
  }

  function DigitValue(c: char): nat
    requires IsDigit(c)
  {
    c as int - '0' as int
  }

  /** The digits at the start: how many, and their value after some that came before. */
  function DigitsAt(s: string, before: nat): (r: (nat, nat))
    ensures r.0 <= |s|
  {
    if s == "" || !IsDigit(s[0]) then (0, before)
    else
      var (n, value) := DigitsAt(s[1..], 10 * before + DigitValue(s[0]));
      (n + 1, value)
  }

  /** The digits after a decimal point. */
  function FractionAt(s: string): (r: (nat, real))
    ensures r.0 <= |s|
  {
    if s == "" || !IsDigit(s[0]) then (0, 0.0)
    else
      var (n, value) := FractionAt(s[1..]);
      (n + 1, (DigitValue(s[0]) as real + value) / 10.0)
  }

  function SpacesIn(s: string): (n: nat)
    ensures n <= |s|
  {
    if s == "" || !IsSpace(s[0]) then 0 else 1 + SpacesIn(s[1..])
  }

  predicate NumberStarts(s: string) {
    s != "" && (IsDigit(s[0]) || (s[0] == '-' && |s| > 1 && IsDigit(s[1])))
  }

  /** -?\d+\.?\d* at the start: its length and its value. */
  function NumberAt(s: string): (r: (nat, real))
    requires NumberStarts(s)
    ensures r.0 <= |s|
  {
    var sign := if s[0] == '-' then 1 else 0;
    var (whole, units) := DigitsAt(s[sign..], 0);
    var end := sign + whole;
    if end < |s| && s[end] == '.' then
      var (places, fraction) := FractionAt(s[end + 1..]);
      (end + 1 + places, Signed(sign == 1, units as real + fraction))
    else (end, Signed(sign == 1, units as real))
  }

  function Signed(negative: bool, value: real): real {
    if negative then -value else value
  }

  lemma NumberIsLong(s: string)
    requires NumberStarts(s)
    ensures NumberAt(s).0 > 0
  {
  }

  function UnitAt(s: string): (r: (nat, Unit))
    ensures r.0 <= |s|
  {
    UnitIn(ALTERNATIVES, s)
  }

  /** The match at the start of a text, given how units are read: its length, zero for none,
      and its milliseconds. */
  function MatchAt(unitAt: string -> (nat, Unit), s: string): (r: (nat, real))
    ensures r.0 > 0 <==> NumberStarts(s)
  {
    if !NumberStarts(s) then (0, 0.0)
    else
      NumberIsLong(s);
      var (n, value) := NumberAt(s);
      var spaces := SpacesIn(s[n..]);
      var (length, unit) := unitAt(s[n + spaces..]);
      (n + spaces + length, Worth(value, unit))
  }

  function Matcher(unitAt: string -> (nat, Unit)): string -> (nat, real) {
    s => MatchAt(unitAt, s)
  }

  lemma MatchFits(s: string)
    ensures MatchAt(UnitAt, s).0 <= |s|
  {
    if NumberStarts(s) {
      var (n, value) := NumberAt(s);
      assert UnitAt(s[n + SpacesIn(s[n..])..]).0 <= |s| - n - SpacesIn(s[n..]);
    }
  }

  /** The sum of all matches, one after the other. */
  function Scan(m: string -> (nat, real), s: string): real
    decreases |s|
  {
    if s == "" then 0.0
    else if 0 < m(s).0 <= |s| then m(s).1 + Scan(m, s[m(s).0..])
    else Scan(m, s[1..])
  }

  function Total(s: string): real {
    Scan(Matcher(UnitAt), s)
  }

  lemma NextMatch(m: string -> (nat, real), s: string, i: nat)
    requires i < |s| && m(s[i..]).0 <= |s| - i
    ensures var r := m(s[i..]);
      Scan(m, s[i..]) == if r.0 > 0 then r.1 + Scan(m, s[i + r.0..]) else Scan(m, s[i + 1..])
  {
    var rest, r := s[i..], m(s[i..]);
    assert rest[r.0..] == s[i + r.0..] && rest[1..] == s[i + 1..];
  }

  /** The loop that goes from match to match. */
  method SumMatches(m: string -> (nat, real), str: string) returns (total: real)
    requires forall s :: Fits(m, s)
    ensures total == Scan(m, str)
  {
    total := 0.0;
    var lastIndex := 0;
    assert str[0..] == str;
    while lastIndex < |str|
      invariant 0 <= lastIndex <= |str| && Scan(m, str) == total + Scan(m, str[lastIndex..])
    {
      assert Fits(m, str[lastIndex..]);
      var (length, value) := m(str[lastIndex..]);
      NextMatch(m, str, lastIndex);
      if length > 0 {
        total := total + value;
        lastIndex := lastIndex + length;
      } else {
        lastIndex := lastIndex + 1;
      }
    }
  }

  ghost predicate Fits(m: string -> (nat, real), s: string) {
    m(s).0 <= |s|
  }

  method Ms(str: string) returns (total: real)
    ensures total == Total(str)
  {
    forall s ensures Fits(Matcher(UnitAt), s) {
      MatchFits(s);
    }
    total := SumMatches(Matcher(UnitAt), str);
  }

  // ---------------------------------------------------------------------------
  // The writers

  function Abs(n: int): nat {
    if n < 0 then -n else n
  }

  /** Math.round(n / unit) for whole n >= 0: halves go up. */
  function Rounded(n: nat, unit: nat): nat
    requires unit > 0
  {
    (2 * n + unit) / (2 * unit)
  }

  function Word(u: Unit): string {
    match u
    case Day => "day"
    case Hour => "hour"
    case Minute => "minute"
    case Second => "second"
    case Milli => "millisecond"
    case Week => "week"
    case Year => "year"
  }

  function WordOf(n: nat, u: Unit): string {
    Word(u) + if n == 1 then "" else "s"
  }

  function Part(n: nat, u: Unit): string {
    Decimal(n) + " " + WordOf(n, u)
  }

  function Add(parts: seq<(nat, Unit)>, n: nat, u: Unit): seq<(nat, Unit)> {
    if n > 0 then parts + [(n, u)] else parts
  }

  /** The parts of the long form that are not zero, and "0 milliseconds" when all are. */
  function LongParts(n: nat): seq<(nat, Unit)> {
    var h := n % 86_400_000;
    var m := h % 3_600_000;
    var s := m % 60_000;
    var parts := Add(Add(Add(Add([], n / 86_400_000, Day), h / 3_600_000, Hour), m / 60_000, Minute), s / 1000, Second);
    if s % 1000 > 0 || parts == [] then parts + [(s % 1000, Milli)] else parts
  }

  function Texts(parts: seq<(nat, Unit)>): (r: seq<string>)
    ensures |r| == |parts|
  {
    if parts == [] then [] else [Part(parts[0].0, parts[0].1)] + Texts(parts[1..])
  }

  function LongForm(n: nat): string {
    Join(Texts(LongParts(n)), ' ')
  }

  /** The unit of the short form. */
  function ShortUnit(n: nat): Unit {
    if n >= 86_400_000 then Day
    else if n >= 3_600_000 then Hour
    else if n >= 60_000 then Minute
    else if n >= 1000 then Second
    else Milli
  }

  function Letter(u: Unit): string {
    match u
    case Day => "d"
    case Hour => "h"
    case Minute => "m"
    case Second => "s"
    case Milli => "ms"
    case Week => "w"
    case Year => "y"
  }

  function ShortForm(n: nat): string {
    Decimal(if ShortUnit(n) == Milli then n else Rounded(n, Size(ShortUnit(n)))) + Letter(ShortUnit(n))
  }

  function Formatted(n: int, long: bool): string {
    (if n < 0 then "-" else "") + if long then LongForm(Abs(n)) else ShortForm(Abs(n))
  }

  lemma {:induction false} TextsOfMore(parts: seq<(nat, Unit)>, x: (nat, Unit))
    ensures Texts(parts + [x]) == Texts(parts) + [Part(x.0, x.1)]
  {
    if parts == [] {
      assert parts + [x] == [x];
    } else {
      assert (parts + [x])[1..] == parts[1..] + [x];
      TextsOfMore(parts[1..], x);
    }
  }

  /** One unit of the long form: a part if there is any, and what remains. */
  method Reduce(ms: nat, u: Unit, parts: seq<string>, ghost listed: seq<(nat, Unit)>)
      returns (rest: nat, r: seq<string>)
    requires parts == Texts(listed)
    ensures rest == ms % Size(u) && r == Texts(Add(listed, ms / Size(u), u))
  {
    rest, r := ms, parts;
    var count := ms / Size(u);
    if count > 0 {
      TextsOfMore(listed, (count, u));
      r := r + [Part(count, u)];
      rest := rest % Size(u);
    }
  }

  method FormatMsLong(n: nat) returns (r: string)
    ensures r == LongForm(n)
  {
    var ms, parts: seq<string> := n, [];
    ghost var listed: seq<(nat, Unit)> := [];
    ms, parts := Reduce(ms, Day, parts, listed);
    listed := Add(listed, n / 86_400_000, Day);
    ghost var h := ms;
    ms, parts := Reduce(ms, Hour, parts, listed);
    listed := Add(listed, h / 3_600_000, Hour);
    ghost var m := ms;
    ms, parts := Reduce(ms, Minute, parts, listed);
    listed := Add(listed, m / 60_000, Minute);
    ghost var s := ms;
    ms, parts := Reduce(ms, Second, parts, listed);
    listed := Add(listed, s / 1000, Second);
    if ms > 0 || |parts| == 0 {
      TextsOfMore(listed, (ms, Milli));
      parts := parts + [Part(ms, Milli)];
    }
    return Join(parts, ' ');
  }

  method FormatMs(n: int, long: bool) returns (r: string)
    ensures r == Formatted(n, long)
  {
    var abs: nat := if n < 0 then -n else n;
    var sign := if n < 0 then "-" else "";
    if long {
      r := FormatMsLong(abs);
      return sign + r;
    }
    if abs >= 86_400_000 {
      return sign + (Decimal(Rounded(abs, 86_400_000)) + "d");
    }
    if abs >= 3_600_000 {
      return sign + (Decimal(Rounded(abs, 3_600_000)) + "h");
    }
    if abs >= 60_000 {
      return sign + (Decimal(Rounded(abs, 60_000)) + "m");
    }
    if abs >= 1000 {
      return sign + (Decimal(Rounded(abs, 1000)) + "s");
    }
    return sign + (Decimal(abs) + "ms");
  }

  // ---------------------------------------------------------------------------
  // Reading what was written

  /** The start of something that does not go on a number. */
  predicate Breaks(s: string) {
    s == "" || (!IsDigit(s[0]) && s[0] != '.')
  }

  lemma {:induction false} DigitsAreRead(d: string, rest: string, k: nat)
    requires k <= |d| && AllDigits(d) && (rest == "" || !IsDigit(rest[0]))
    ensures DigitsAt(d[k..] + rest, Numeral(d[..k])) == (|d| - k, Numeral(d))
    decreases |d| - k
  {
    var s := d[k..] + rest;
    if k == |d| {
      assert s == rest && d[..k] == d;
    } else {
      assert s[0] == d[k] && s[1..] == d[k + 1..] + rest;
      assert d[..k + 1][..k] == d[..k];
      DigitsAreRead(d, rest, k + 1);
    }
  }

  lemma DecimalIsReadAt(n: nat, rest: string)
    requires Breaks(rest)
    ensures DigitsAt(Decimal(n) + rest, 0) == (|Decimal(n)|, n)
    ensures IsDigit((Decimal(n) + rest)[0])
    ensures |Decimal(n)| < |Decimal(n) + rest| ==> (Decimal(n) + rest)[|Decimal(n)|] != '.'
  {
    var d := Decimal(n);
    DigitsAreRead(d, rest, 0);
    DecimalIsRead(n);
    assert d[0..] == d && d[..0] == "";
    assert (d + rest)[0] == d[0];
  }

  lemma NumberIsRead(n: nat, rest: string)
    requires Breaks(rest)
    ensures NumberStarts(Decimal(n) + rest) && NumberAt(Decimal(n) + rest) == (|Decimal(n)|, n as real)
  {
    DecimalIsReadAt(n, rest);
    var s := Decimal(n) + rest;
    assert s[0..] == s;
  }

  lemma NegativeIsRead(n: nat, rest: string)
    requires Breaks(rest)
    ensures NumberStarts("-" + Decimal(n) + rest)
    ensures NumberAt("-" + Decimal(n) + rest) == (|Decimal(n)| + 1, -(n as real))
  {
    DecimalIsReadAt(n, rest);
    var s, plain := "-" + Decimal(n) + rest, Decimal(n) + rest;
    assert s[1..] == plain && s[0] == '-' && s[1] == plain[0];
    assert |plain| > |Decimal(n)| ==> s[|Decimal(n)| + 1] == plain[|Decimal(n)|];
  }

  predicate NoNumber(s: string) {
    forall k :: 0 <= k < |s| ==> !IsDigit(s[k]) && s[k] != '-'
  }

  /** A match begins with a number. */
  ghost predicate StartsWithNumber(m: string -> (nat, real), s: string) {
    m(s).0 > 0 ==> NumberStarts(s)
  }

  lemma {:induction false} WordsAreSkipped(m: string -> (nat, real), w: string, rest: string)
    requires NoNumber(w) && forall s :: StartsWithNumber(m, s)
    ensures Scan(m, w + rest) == Scan(m, rest)
  {
    if w == "" {
      assert w + rest == rest;
    } else {
      var s := w + rest;
      assert s[1..] == w[1..] + rest && s[0] == w[0] && StartsWithNumber(m, s);
      WordsAreSkipped(m, w[1..], rest);
    }
  }

  lemma {:induction false} FirstFits(alternatives: seq<(string, Unit)>, s: string, k: nat)
    requires k < |alternatives| && Starts(s, alternatives[k].0)
    requires forall j :: 0 <= j < k ==> !Starts(s, alternatives[j].0)
    ensures UnitIn(alternatives, s) == (|alternatives[k].0|, alternatives[k].1)
  {
    if k > 0 {
      assert !Starts(s, alternatives[0].0);
      FirstFits(alternatives[1..], s, k - 1);
    }
  }

  /** The place of a unit's word, or of the letter it begins with, among the alternatives. */
  function PlaceOf(n: nat, u: Unit): nat {
    match u
    case Day => 6
    case Hour => 5
    case Minute => 4
    case Second => 3
    case Milli => if n == 1 then 2 else 1
    case Week => 7
    case Year => 8
  }

  lemma NotBefore(s: string)
    requires |s| > 2
    ensures LowerCase(s[0]) != 'd' ==> !Starts(s, "d")
    ensures LowerCase(s[0]) != 'w' ==> !Starts(s, "w")
    ensures LowerCase(s[0]) != 'm' ==>
      !Starts(s, "ms") && !Starts(s, "milliseconds") && !Starts(s, "millisecond") && !Starts(s, "m")
    ensures LowerCase(s[1]) != 's' ==> !Starts(s, "ms")
    ensures LowerCase(s[2]) != 'l' ==> !Starts(s, "milliseconds") && !Starts(s, "millisecond")
    ensures LowerCase(s[0]) != 's' ==> !Starts(s, "s")
    ensures LowerCase(s[0]) != 'h' ==> !Starts(s, "h")
  {
  }

  lemma WordFits(u: Unit, n: nat, rest: string)
    requires rest == "" || rest[0] == ' '
    ensures var s := WordOf(n, u) + rest;
      && Starts(s, ALTERNATIVES[PlaceOf(n, u)].0)
      && forall j :: 0 <= j < PlaceOf(n, u) ==> !Starts(s, ALTERNATIVES[j].0)
  {
    var w := WordOf(n, u);
    var s := w + rest;
    assert forall k :: 0 <= k < |w| ==> s[k] == w[k];
    assert |w| < |s| ==> s[|w|] == ' ';
    NotBefore(s);
    match u {
      case Day => assert LowerCase(s[0]) == 'd';
      case Hour => assert LowerCase(s[0]) == 'h';
      case Minute => assert LowerCase(s[0]) == 'm' && LowerCase(s[1]) == 'i' && LowerCase(s[2]) == 'n';
      case Second => assert LowerCase(s[0]) == 's';
      case Milli => assert LowerCase(s[1]) == 'i';
      case Week => assert LowerCase(s[0]) == 'w';
      case Year => assert LowerCase(s[0]) == 'y';
    }
  }

  /** The word of a unit, alone or with an s, is read as the unit. */
  lemma WordIsRead(u: Unit, n: nat, rest: string)
    requires rest == "" || rest[0] == ' '
    ensures UnitAt(WordOf(n, u) + rest) == (UnitLength(n, u), u)
  {
    WordFits(u, n, rest);
    FirstFits(ALTERNATIVES, WordOf(n, u) + rest, PlaceOf(n, u));
  }

  /** The letters of a unit's word that are read as the unit. */
  function UnitLength(n: nat, u: Unit): (k: nat)
    ensures k <= |WordOf(n, u)|
  {
    if u != Milli then 1 else |WordOf(n, u)|
  }

  lemma MatchFrom(unitAt: string -> (nat, Unit), s: string, n: nat, value: real, spaces: nat)
    requires NumberStarts(s) && NumberAt(s) == (n, value) && SpacesIn(s[n..]) == spaces
    ensures var (length, unit) := unitAt(s[n + spaces..]);
      MatchAt(unitAt, s) == (n + spaces + length, Worth(value, unit))
  {
  }

  /** A number, a space and what comes after it make one match. */
  lemma MatchIn(unitAt: string -> (nat, Unit), s: string, n: nat, value: real, after: string)
    requires NumberStarts(s) && NumberAt(s) == (n, value)
    requires n < |s| && s[n] == ' ' && s[n + 1..] == after && after != "" && !IsSpace(after[0])
    ensures var (length, unit) := unitAt(after); MatchAt(unitAt, s) == (n + 1 + length, Worth(value, unit))
  {
    assert s[n..][1..] == after;
    MatchFrom(unitAt, s, n, value, 1);
  }

  /** A whole number of a unit, in milliseconds. */
  function Millis(n: nat, u: Unit): nat {
    n * Size(u)
  }

  lemma WorthIsMillis(n: nat, u: Unit)
    ensures Worth(n as real, u) == Millis(n, u) as real
    ensures Worth(-(n as real), u) == -(Millis(n, u) as real)
  {
  }

  /** What the reader makes of a part, wherever it stands, with a sign or without. */
  ghost predicate ReadsPart(m: string -> (nat, real), n: nat, u: Unit, rest: string) {
    rest == "" || rest[0] == ' ' ==>
      && m(Part(n, u) + rest) == (|Decimal(n)| + 1 + UnitLength(n, u), Millis(n, u) as real)
      && m("-" + (Part(n, u) + rest)) == (|Decimal(n)| + 2 + UnitLength(n, u), -(Millis(n, u) as real))
  }

  ghost predicate Reader(m: string -> (nat, real)) {
    && (forall s :: StartsWithNumber(m, s))
    && (forall n, u, rest :: ReadsPart(m, n, u, rest))
  }

  /** What is made of the word of a unit, and of its letter. */
  ghost predicate ReadsWord(unitAt: string -> (nat, Unit), n: nat, u: Unit, rest: string) {
    rest == "" || rest[0] == ' ' ==> unitAt(WordOf(n, u) + rest) == (UnitLength(n, u), u)
  }

  lemma PieceSlices(d: string, w: string, rest: string)
    ensures var s := d + " " + w + rest;
      |s| == |d| + 1 + |w| + |rest| && s[|d|] == ' ' && s[|d| + 1..] == w + rest && s == d + (" " + (w + rest))
  {
  }

  lemma SignedSlices(d: string, w: string, rest: string)
    ensures var s := "-" + (d + " " + w + rest);
      && |s| == |d| + 2 + |w| + |rest| && s[|d| + 1] == ' ' && s[|d| + 2..] == w + rest
      && s == "-" + d + (" " + (w + rest))
  {
  }

  lemma WordStart(n: nat, u: Unit)
    ensures WordOf(n, u) != "" && !IsSpace(WordOf(n, u)[0])
  {
  }

  lemma NumberMatches(unitAt: string -> (nat, Unit), n: nat, w: string, rest: string)
    requires w != "" && !IsSpace(w[0])
    ensures var (length, unit) := unitAt(w + rest);
      MatchAt(unitAt, Decimal(n) + " " + w + rest) == (|Decimal(n)| + 1 + length, Worth(n as real, unit))
  {
    NumberIsRead(n, " " + (w + rest));
    PieceSlices(Decimal(n), w, rest);
    assert (w + rest)[0] == w[0];
    MatchIn(unitAt, Decimal(n) + " " + w + rest, |Decimal(n)|, n as real, w + rest);
  }

  lemma NegativeMatches(unitAt: string -> (nat, Unit), n: nat, w: string, rest: string)
    requires w != "" && !IsSpace(w[0])
    ensures var (length, unit) := unitAt(w + rest);
      MatchAt(unitAt, "-" + (Decimal(n) + " " + w + rest)) == (|Decimal(n)| + 2 + length, Worth(-(n as real), unit))
  {
    NegativeIsRead(n, " " + (w + rest));
    SignedSlices(Decimal(n), w, rest);
    assert (w + rest)[0] == w[0];
    MatchIn(unitAt, "-" + (Decimal(n) + " " + w + rest), |Decimal(n)| + 1, -(n as real), w + rest);
  }

  lemma PartText(n: nat, u: Unit, rest: string)
    ensures Part(n, u) + rest == Decimal(n) + " " + WordOf(n, u) + rest
  {
  }

  lemma NumberMatchesAs(unitAt: string -> (nat, Unit), n: nat, w: string, rest: string, length: nat, u: Unit)
    requires w != "" && !IsSpace(w[0]) && unitAt(w + rest) == (length, u)
    ensures MatchAt(unitAt, Decimal(n) + " " + w + rest) == (|Decimal(n)| + 1 + length, Worth(n as real, u))
  {
    NumberMatches(unitAt, n, w, rest);
  }

  lemma PlainPart(unitAt: string -> (nat, Unit), n: nat, u: Unit, rest: string)
    requires (rest == "" || rest[0] == ' ') && ReadsWord(unitAt, n, u, rest)
    ensures MatchAt(unitAt, Part(n, u) + rest) == (|Decimal(n)| + 1 + UnitLength(n, u), Worth(n as real, u))
  {
    WordStart(n, u);
    PartText(n, u, rest);
    NumberMatchesAs(unitAt, n, WordOf(n, u), rest, UnitLength(n, u), u);
  }

  lemma SignedPart(unitAt: string -> (nat, Unit), n: nat, u: Unit, rest: string)
    requires (rest == "" || rest[0] == ' ') && ReadsWord(unitAt, n, u, rest)
    ensures MatchAt(unitAt, "-" + (Part(n, u) + rest)) == (|Decimal(n)| + 2 + UnitLength(n, u), Worth(-(n as real), u))
  {
    WordStart(n, u);
    NegativeMatches(unitAt, n, WordOf(n, u), rest);
  }

  lemma PartMatches(unitAt: string -> (nat, Unit), n: nat, u: Unit, rest: string)
    requires ReadsWord(unitAt, n, u, rest)
    ensures ReadsPart(Matcher(unitAt), n, u, rest)
  {
    if rest == "" || rest[0] == ' ' {
      PlainPart(unitAt, n, u, rest);
      SignedPart(unitAt, n, u, rest);
      WorthIsMillis(n, u);
    }
  }

  lemma MatcherReads(unitAt: string -> (nat, Unit))
    requires forall n, u, rest :: ReadsWord(unitAt, n, u, rest)
    ensures Reader(Matcher(unitAt))
  {
    var m := Matcher(unitAt);
    forall s ensures StartsWithNumber(m, s) {
      assert m(s) == MatchAt(unitAt, s);
    }
    forall n, u, rest ensures ReadsPart(m, n, u, rest) {
      assert ReadsWord(unitAt, n, u, rest);
      PartMatches(unitAt, n, u, rest);
    }
  }

  lemma DurationsAreRead()
    ensures Reader(Matcher(UnitAt))
  {
    forall n, u, rest ensures ReadsWord(UnitAt, n, u, rest) {
      if rest == "" || rest[0] == ' ' {
        WordIsRead(u, n, rest);
      }
    }
    MatcherReads(UnitAt);
  }

  /** What is left of a text after a match that ends inside a word. */
  lemma LeftOver(number: string, word: string, rest: string, k: nat)
    requires k <= |word| && NoNumber(word)
    ensures NoNumber(word[k..])
    ensures (number + " " + word + rest)[|number| + 1 + k..] == word[k..] + rest
    ensures ("-" + (number + " " + word + rest))[|number| + 2 + k..] == word[k..] + rest
  {
    forall j | 0 <= j < |word[k..]| ensures !IsDigit(word[k..][j]) && word[k..][j] != '-' {
      assert word[k..][j] == word[k + j];
    }
    var s := number + " " + word + rest;
    assert s[|number| + 1 + k..] == word[k..] + rest;
    assert ("-" + s)[|number| + 2 + k..] == s[|number| + 1 + k..];
  }

  lemma WordHasNoNumber(n: nat, u: Unit)
    ensures NoNumber(WordOf(n, u))
  {
  }

  lemma TakeMatch(m: string -> (nat, real), s: string, length: nat, value: real, tail: string)
    requires m(s) == (length, value) && 0 < length <= |s| && s[length..] == tail
    ensures Scan(m, s) == value + Scan(m, tail)
  {
  }

  /** A match that ends inside a word, whose other letters are skipped. */
  lemma TakeWord(m: string -> (nat, real), number: string, word: string, rest: string, k: nat, value: real, back: real)
    requires (forall s :: StartsWithNumber(m, s)) && k <= |word| && NoNumber(word)
    requires m(number + " " + word + rest) == (|number| + 1 + k, value)
    requires m("-" + (number + " " + word + rest)) == (|number| + 2 + k, back)
    ensures Scan(m, number + " " + word + rest) == value + Scan(m, rest)
    ensures Scan(m, "-" + (number + " " + word + rest)) == back + Scan(m, rest)
  {
    LeftOver(number, word, rest, k);
    TakeMatch(m, number + " " + word + rest, |number| + 1 + k, value, word[k..] + rest);
    TakeMatch(m, "-" + (number + " " + word + rest), |number| + 2 + k, back, word[k..] + rest);
    WordsAreSkipped(m, word[k..], rest);
  }

  lemma PartIsRead(m: string -> (nat, real), n: nat, u: Unit, rest: string)
    requires Reader(m) && (rest == "" || rest[0] == ' ')
    ensures Scan(m, Part(n, u) + rest) == Millis(n, u) as real + Scan(m, rest)
    ensures Scan(m, "-" + (Part(n, u) + rest)) == -(Millis(n, u) as real) + Scan(m, rest)
  {
    assert ReadsPart(m, n, u, rest);
    WordHasNoNumber(n, u);
    TakeWord(m, Decimal(n), WordOf(n, u), rest, UnitLength(n, u), Millis(n, u) as real, -(Millis(n, u) as real));
  }

  function Sum(parts: seq<(nat, Unit)>): nat {
    if parts == [] then 0 else Millis(parts[0].0, parts[0].1) + Sum(parts[1..])
  }

  /** What follows the first part in a joined text. */
  function Tail(parts: seq<(nat, Unit)>): (r: string)
    requires parts != []
    ensures r == "" || r[0] == ' '
  {
    if |parts| == 1 then "" else " " + Join(Texts(parts[1..]), ' ')
  }

  lemma JoinCons(first: string, more: seq<string>)
    ensures Join([first] + more, ' ') == first + if more == [] then "" else " " + Join(more, ' ')
  {
    assert ([first] + more)[1..] == more;
    if more == [] {
      assert first + "" == first;
    } else {
      assert first + [' '] + Join(more, ' ') == first + (" " + Join(more, ' '));
    }
  }

  lemma JoinedParts(parts: seq<(nat, Unit)>)
    requires parts != []
    ensures Join(Texts(parts), ' ') == Part(parts[0].0, parts[0].1) + Tail(parts)
  {
    JoinCons(Part(parts[0].0, parts[0].1), Texts(parts[1..]));
  }

  lemma {:induction false} PartsAreRead(m: string -> (nat, real), parts: seq<(nat, Unit)>)
    requires Reader(m)
    ensures Scan(m, Join(Texts(parts), ' ')) == Sum(parts) as real
    decreases |parts|
  {
    if parts != [] {
      JoinedParts(parts);
      PartIsRead(m, parts[0].0, parts[0].1, Tail(parts));
      TailIsRead(m, parts);
    }
  }

  lemma {:induction false} TailIsRead(m: string -> (nat, real), parts: seq<(nat, Unit)>)
    requires Reader(m) && parts != []
    ensures Scan(m, Tail(parts)) == Sum(parts[1..]) as real
    decreases |parts|, 0
  {
    if |parts| > 1 {
      PartsAreRead(m, parts[1..]);
      WordsAreSkipped(m, " ", Join(Texts(parts[1..]), ' '));
    }
  }

  lemma {:induction false} SumOfMore(parts: seq<(nat, Unit)>, x: (nat, Unit))
    ensures Sum(parts + [x]) == Sum(parts) + Millis(x.0, x.1)
  {
    if parts == [] {
      assert parts + [x] == [x];
    } else {
      assert (parts + [x])[1..] == parts[1..] + [x];
      SumOfMore(parts[1..], x);
    }
  }

  lemma SumOfAdd(parts: seq<(nat, Unit)>, n: nat, u: Unit)
    ensures Sum(Add(parts, n, u)) == Sum(parts) + Millis(n, u)
  {
    if n > 0 {
      SumOfMore(parts, (n, u));
    }
  }

  lemma LongPartsSum(n: nat)
    ensures Sum(LongParts(n)) == n
  {
    var h := n % 86_400_000;
    var m := h % 3_600_000;
    var s := m % 60_000;
    var p1 := Add([], n / 86_400_000, Day);
    var p2 := Add(p1, h / 3_600_000, Hour);
    var p3 := Add(p2, m / 60_000, Minute);
    var p4 := Add(p3, s / 1000, Second);
    SumOfAdd([], n / 86_400_000, Day);
    SumOfAdd(p1, h / 3_600_000, Hour);
    SumOfAdd(p2, m / 60_000, Minute);
    SumOfAdd(p3, s / 1000, Second);
    SumOfMore(p4, (s % 1000, Milli));
  }

  /** The long form of a natural number of milliseconds is read back exactly. */
  lemma LongRoundTrip(n: nat)
    ensures Total(Formatted(n, true)) == n as real
  {
    assert "" + LongForm(n) == LongForm(n);
    DurationsAreRead();
    PartsAreRead(Matcher(UnitAt), LongParts(n));
    LongPartsSum(n);
  }

  predicate AllPositive(parts: seq<(nat, Unit)>) {
    forall k :: 0 <= k < |parts| ==> parts[k].0 > 0
  }

  lemma LongPartsPositive(n: nat)
    requires n > 0
    ensures AllPositive(LongParts(n))
  {
    if LongParts(n) == [(0, Milli)] {
      LongPartsSum(n);
    }
  }

  lemma {:induction false} PositiveSum(parts: seq<(nat, Unit)>)
    requires AllPositive(parts)
    ensures Sum(parts) == 0 <==> parts == []
  {
    if parts != [] {
      PositiveSum(parts[1..]);
      PositiveProduct(parts[0].0, parts[0].1);
    }
  }

  lemma PositiveProduct(n: nat, u: Unit)
    requires n > 0
    ensures Millis(n, u) > 0
  {
  }

  lemma NegativeIsReadAs(m: string -> (nat, real), parts: seq<(nat, Unit)>)
    requires Reader(m) && parts != []
    ensures Scan(m, "-" + Join(Texts(parts), ' ')) == Sum(parts[1..]) as real - Millis(parts[0].0, parts[0].1) as real
  {
    JoinedParts(parts);
    PartIsRead(m, parts[0].0, parts[0].1, Tail(parts));
    TailIsRead(m, parts);
  }

  /** The sign is read with the first part only: a negative duration is read back exactly when
      its long form has one part. */
  lemma LongRoundTripIff(n: int)
    ensures Total(Formatted(n, true)) == n as real <==> n >= 0 || |LongParts(Abs(n))| == 1
  {
    if n >= 0 {
      LongRoundTrip(n);
    } else {
      var parts := LongParts(-n);
      DurationsAreRead();
      NegativeIsReadAs(Matcher(UnitAt), parts);
      LongPartsSum(-n);
      LongPartsPositive(-n);
      PositiveSum(parts[1..]);
    }
  }

  // ---------------------------------------------------------------------------
  // The short form

  lemma LetterFits(u: Unit)
    ensures Starts(Letter(u), ALTERNATIVES[LetterPlace(u)].0)
    ensures forall j :: 0 <= j < LetterPlace(u) ==> !Starts(Letter(u), ALTERNATIVES[j].0)
  {
    var s := Letter(u);
    match u {
      case Day => assert LowerCase(s[0]) == 'd';
      case Hour => assert LowerCase(s[0]) == 'h';
      case Minute => assert LowerCase(s[0]) == 'm' && |s| == 1;
      case Second => assert LowerCase(s[0]) == 's';
      case Milli => assert LowerCase(s[0]) == 'm' && LowerCase(s[1]) == 's';
      case Week => assert LowerCase(s[0]) == 'w';
      case Year => assert LowerCase(s[0]) == 'y';
    }
  }

  function LetterPlace(u: Unit): nat {
    match u
    case Day => 6
    case Hour => 5
    case Minute => 4
    case Second => 3
    case Milli => 0
    case Week => 7
    case Year => 8
  }

  lemma LetterIsUnit(u: Unit)
    ensures UnitAt(Letter(u)) == (|Letter(u)|, u)
  {
    LetterFits(u);
    FirstFits(ALTERNATIVES, Letter(u), LetterPlace(u));
  }

  lemma LetterMatches(unitAt: string -> (nat, Unit), number: string, letter: string, value: real, u: Unit)
    requires NumberStarts(number + letter) && NumberAt(number + letter) == (|number|, value)
    requires letter != "" && !IsSpace(letter[0]) && unitAt(letter) == (|letter|, u)
    ensures MatchAt(unitAt, number + letter) == (|number| + |letter|, Worth(value, u))
  {
    assert (number + letter)[|number|..] == letter;
    MatchFrom(unitAt, number + letter, |number|, value, 0);
  }

  lemma OneMatch(m: string -> (nat, real), s: string)
    requires s != "" && m(s).0 == |s|
    ensures Scan(m, s) == m(s).1
  {
    assert s[|s|..] == "";
  }

  lemma RoundedIsNear(n: nat, unit: nat)
    requires unit > 0
    ensures -(unit as int) <= 2 * (Rounded(n, unit) * unit - n) <= unit
  {
    var k := (2 * n + unit) / (2 * unit);
    assert 2 * unit * k + (2 * n + unit) % (2 * unit) == 2 * n + unit;
    assert 2 * unit * k == 2 * (k * unit);
  }

  /** The number the short form shows, in milliseconds. */
  function Shown(n: nat): nat {
    if ShortUnit(n) == Milli then n else Rounded(n, Size(ShortUnit(n))) * Size(ShortUnit(n))
  }

  lemma PlainIsRead(unitAt: string -> (nat, Unit), k: nat, u: Unit)
    requires unitAt(Letter(u)) == (|Letter(u)|, u)
    ensures Scan(Matcher(unitAt), Decimal(k) + Letter(u)) == Millis(k, u) as real
    ensures Scan(Matcher(unitAt), "-" + Decimal(k) + Letter(u)) == -(Millis(k, u) as real)
  {
    NumberIsRead(k, Letter(u));
    NegativeIsRead(k, Letter(u));
    LetterMatches(unitAt, Decimal(k), Letter(u), k as real, u);
    LetterMatches(unitAt, "-" + Decimal(k), Letter(u), -(k as real), u);
    WorthIsMillis(k, u);
    OneMatch(Matcher(unitAt), Decimal(k) + Letter(u));
    OneMatch(Matcher(unitAt), "-" + Decimal(k) + Letter(u));
  }

  lemma WithSign(text: string, letter: string)
    ensures "-" + (text + letter) == "-" + text + letter && "" + (text + letter) == text + letter
  {
  }

  lemma ShortIsScanned(unitAt: string -> (nat, Unit), n: int)
    requires forall u :: unitAt(Letter(u)) == (|Letter(u)|, u)
    ensures Scan(Matcher(unitAt), Formatted(n, false)) ==
      if n < 0 then -(Shown(Abs(n)) as real) else Shown(Abs(n)) as real
  {
    var u := ShortUnit(Abs(n));
    var k := if u == Milli then Abs(n) else Rounded(Abs(n), Size(u));
    PlainIsRead(unitAt, k, u);
    WithSign(Decimal(k), Letter(u));
  }

  lemma ShortIsRead(n: int)
    ensures Total(Formatted(n, false)) == if n < 0 then -(Shown(Abs(n)) as real) else Shown(Abs(n)) as real
  {
    forall u ensures UnitAt(Letter(u)) == (|Letter(u)|, u) {
      LetterIsUnit(u);
    }
    ShortIsScanned(UnitAt, n);
  }

  /** The short form of every whole number is read back with an error of at most half the unit
      it is printed in, and below a second with none. */
  lemma ShortFormIsNear(n: int)
    ensures var read, unit := Total(Formatted(n, false)), Size(ShortUnit(Abs(n))) as real;
      && -unit <= 2.0 * (read - n as real) <= unit
      && (Abs(n) < 1000 ==> read == n as real)
  {
    ShortIsRead(n);
    if Abs(n) >= 1000 {
      RoundedIsNear(Abs(n), Size(ShortUnit(Abs(n))));
    }
  }
}
