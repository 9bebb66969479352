/** Durations as texts, from rom/lib/format.ts. */
module DurationTexts {
  // What the reader and the writers of rom/lib/format.ts do, on the texts themselves: letters,
  // capitals and fractions that are read, and the short and the long form, word for word.

  import opened Duration
  import opened Numbers
  import opened Text

  lemma UnitIsRead(k: nat, u: Unit)
    ensures Total(Decimal(k) + Letter(u)) == Millis(k, u) as real
  {
    LetterIsUnit(u);
    PlainIsRead(UnitAt, k, u);
  }

  /** A number with a letter behind it is that many of the unit, in milliseconds. */
  lemma LettersAreUnits(k: nat)
    ensures Total(Decimal(k) + "ms") == k as real
    ensures Total(Decimal(k) + "s") == (k * 1000) as real
    ensures Total(Decimal(k) + "m") == (k * 60 * 1000) as real
    ensures Total(Decimal(k) + "h") == (k * 3600 * 1000) as real
    ensures Total(Decimal(k) + "d") == (k * 24 * 3600 * 1000) as real
    ensures Total(Decimal(k) + "w") == (k * 7 * 24 * 3600 * 1000) as real
    ensures Total(Decimal(k) + "y") == (k * 365 * 24 * 3600 * 1000) as real
  {
    UnitIsRead(k, Milli);
    UnitIsRead(k, Second);
    UnitIsRead(k, Minute);
    UnitIsRead(k, Hour);
    UnitIsRead(k, Day);
    UnitIsRead(k, Week);
    UnitIsRead(k, Year);
  }

  lemma RoundedIs(n: nat, half: nat)
    requires half > 0
    ensures Rounded(n, 2 * half) == (n + half) / (2 * half)
  {
    var q, r := (n + half) / (2 * half), (n + half) % (2 * half);
    assert n + half == q * (2 * half) + r;
    assert 2 * n + 2 * half == q * (4 * half) + 2 * r;
    QuotientIs(2 * n + 2 * half, 4 * half, q, 2 * r);
  }

  lemma QuotientIs(x: nat, step: nat, q: nat, r: nat)
    requires step > 0 && x == q * step + r && r < step
    ensures x / step == q
  {
    RemainderIs(x, step, q, r);
    var p := x / step;
    assert x == step * p + r;
    if p < q {
      TimesGrows(step, p + 1, q);
      Distribute(step, p, 1);
    } else if q < p {
      TimesGrows(step, q + 1, p);
      Distribute(step, q, 1);
    }
  }

  /** The short form: milliseconds below a second, and from then on the largest unit up to days
      that fits, rounded with halves going up. */
  lemma ShortFormIs(n: nat)
    ensures Formatted(n, false) ==
      if n < 1000 then Decimal(n) + "ms"
      else if n < 60_000 then Decimal((n + 500) / 1000) + "s"
      else if n < 3_600_000 then Decimal((n + 30_000) / 60_000) + "m"
      else if n < 86_400_000 then Decimal((n + 1_800_000) / 3_600_000) + "h"
      else Decimal((n + 43_200_000) / 86_400_000) + "d"
  {
    RoundedIs(n, 500);
    RoundedIs(n, 30_000);
    RoundedIs(n, 1_800_000);
    RoundedIs(n, 43_200_000);
    UnsignedIs(n);
  }

  /** A part of the long form, when it is not zero. */
  function NonZero(n: nat, word: string): seq<string> {
    if n == 0 then [] else [Decimal(n) + " " + word + if n == 1 then "" else "s"]
  }

  lemma TextsOfAdd(parts: seq<(nat, Unit)>, n: nat, u: Unit)
    ensures Texts(Add(parts, n, u)) == Texts(parts) + NonZero(n, Word(u))
  {
    if n > 0 {
      TextsOfMore(parts, (n, u));
      var ending := if n == 1 then "" else "s";
      assert Decimal(n) + " " + (Word(u) + ending) == Decimal(n) + " " + Word(u) + ending;
    } else {
      assert Texts(parts) + [] == Texts(parts);
    }
  }

  function Pieces(d: nat, h: nat, m: nat, s: nat, ms: nat): seq<string> {
    NonZero(d, "day") + NonZero(h, "hour") + NonZero(m, "minute") + NonZero(s, "second") + NonZero(ms, "millisecond")
  }

  lemma PiecesAre(d: nat, h: nat, m: nat, s: nat, ms: nat)
    ensures Texts(Add(Add(Add(Add(Add([], d, Day), h, Hour), m, Minute), s, Second), ms, Milli)) ==
      Pieces(d, h, m, s, ms)
  {
    var days := Add([], d, Day);
    var hours := Add(days, h, Hour);
    var minutes := Add(hours, m, Minute);
    var seconds := Add(minutes, s, Second);
    TextsOfAdd([], d, Day);
    TextsOfAdd(days, h, Hour);
    TextsOfAdd(hours, m, Minute);
    TextsOfAdd(minutes, s, Second);
    TextsOfAdd(seconds, ms, Milli);
    assert [] + NonZero(d, "day") == NonZero(d, "day");
  }

  lemma LongTexts(n: nat)
    requires n > 0
    ensures var h := n % 86_400_000; var m := h % 3_600_000; var s := m % 60_000;
      Texts(LongParts(n)) == Pieces(n / 86_400_000, h / 3_600_000, m / 60_000, s / 1000, s % 1000)
  {
    var h := n % 86_400_000;
    var m := h % 3_600_000;
    var s := m % 60_000;
    PiecesAre(n / 86_400_000, h / 3_600_000, m / 60_000, s / 1000, s % 1000);
  }

  lemma ZeroText()
    ensures LongForm(0) == "0 milliseconds"
  {
    assert LongParts(0) == [] + [(0, Milli)] == [(0, Milli)];
    assert Decimal(0) == "0" && Part(0, Milli) == "0 milliseconds";
    assert Texts([(0, Milli)]) == [Part(0, Milli)] + Texts([]);
  }

  /** The long form: the days, hours, minutes, seconds and milliseconds that are not zero, with a
      blank between them and an s behind all but one, and of zero "0 milliseconds". */
  lemma LongFormIs(n: nat)
    ensures var h := n % 86_400_000; var m := h % 3_600_000; var s := m % 60_000;
      Formatted(n, true) == if n == 0 then "0 milliseconds"
        else Join(Pieces(n / 86_400_000, h / 3_600_000, m / 60_000, s / 1000, s % 1000), ' ')
  {
    UnsignedIs(n);
    if n == 0 {
      ZeroText();
    } else {
      LongTexts(n);
    }
  }

  lemma UnsignedIs(n: nat)
    ensures Formatted(n, true) == LongForm(n) && Formatted(n, false) == ShortForm(n)
  {
    assert "" + LongForm(n) == LongForm(n) && "" + ShortForm(n) == ShortForm(n);
  }

  /** A negative duration has the form of the positive one with a sign in front. */
  lemma SignInFront(n: int, long: bool)
    requires n > 0
    ensures Formatted(-n, long) == "-" + Formatted(n, long)
  {
    UnsignedIs(n);
  }

  // ---------------------------------------------------------------------------
  // Capitals and fractions

  function Capital(c: char): char {
    if 'a' <= c <= 'z' then c - 'a' + 'A' else c
  }

  function Capitals(s: string): (r: string)
    ensures |r| == |s| && forall k :: 0 <= k < |s| ==> r[k] == Capital(s[k])
  {
    seq(|s|, k requires 0 <= k < |s| => Capital(s[k]))
  }

  lemma {:induction false} CapitalsAreUnits(alternatives: seq<(string, Unit)>, s: string)
    ensures UnitIn(alternatives, Capitals(s)) == UnitIn(alternatives, s)
  {
    if alternatives != [] {
      CapitalsAreUnits(alternatives[1..], s);
      var word := alternatives[0].0;
      if |word| <= |s| {
        assert forall k :: 0 <= k < |word| ==> LowerCase(Capitals(s)[k]) == LowerCase(s[k]);
      }
    }
  }

  /** A number with this unit behind it, whole or not. */
  lemma OneUnit(number: string, value: real, letter: string, u: Unit)
    requires NumberStarts(number + letter) && NumberAt(number + letter) == (|number|, value)
    requires letter != "" && !IsSpace(letter[0]) && UnitAt(letter) == (|letter|, u)
    ensures Total(number + letter) == Worth(value, u)
  {
    LetterMatches(UnitAt, number, letter, value, u);
    OneMatch(Matcher(UnitAt), number + letter);
  }

  function CapitalLetter(u: Unit): string {
    match u
    case Milli => "MS"
    case Second => "S"
    case Minute => "M"
    case Hour => "H"
    case Day => "D"
    case Week => "W"
    case Year => "Y"
  }

  lemma CapitalLetters(u: Unit)
    ensures CapitalLetter(u) == Capitals(Letter(u)) && !IsSpace(CapitalLetter(u)[0]) && Breaks(CapitalLetter(u))
  {
  }

  /** Units may be written in capitals. */
  lemma CapitalsAreRead(k: nat, u: Unit)
    ensures Total(Decimal(k) + CapitalLetter(u)) == Total(Decimal(k) + Letter(u))
  {
    var letter := CapitalLetter(u);
    LetterIsUnit(u);
    CapitalLetters(u);
    CapitalsAreUnits(ALTERNATIVES, Letter(u));
    NumberIsRead(k, letter);
    OneUnit(Decimal(k), k as real, letter, u);
    WorthIsMillis(k, u);
    UnitIsRead(k, u);
  }

  function Ten(n: nat): nat {
    if n == 0 then 1 else 10 * Ten(n - 1)
  }

  lemma DigitMoves(d: nat, ten: nat, n: nat)
    ensures 10 * (d * ten + n) == d * (10 * ten) + 10 * n
  {
  }

  lemma {:induction false} FirstDigitCounts(f: string)
    requires f != "" && AllDigits(f)
    ensures Numeral(f) == DigitValue(f[0]) * Ten(|f| - 1) + Numeral(f[1..])
  {
    if |f| == 1 {
      assert f[..0] == "" && f[1..] == "";
    } else {
      var g := f[..|f| - 1];
      FirstDigitCounts(g);
      assert f[1..][..|f| - 2] == g[1..];
      DigitMoves(DigitValue(f[0]), Ten(|g| - 1), Numeral(g[1..]));
    }
  }

  lemma TenthOf(w: real, d: nat, ten: nat, n: nat, v: real)
    requires w == (d as real + v) / 10.0 && v * ten as real == n as real
    ensures w * (10 * ten) as real == (d * ten + n) as real
  {
    assert w * 10.0 == d as real + v;
    assert w * (10 * ten) as real == (w * 10.0) * ten as real;
    assert (d as real + v) * ten as real == (d * ten) as real + v * ten as real;
  }

  /** What the digits behind a point add. */
  function Fraction(f: string): real
    requires AllDigits(f)
  {
    if f == "" then 0.0 else (DigitValue(f[0]) as real + Fraction(f[1..])) / 10.0
  }

  lemma FirstDigitAdds(w: real, tens: nat, m: nat, d: nat, ten: nat, n: nat, v: real)
    requires w == (d as real + v) / 10.0 && v * ten as real == n as real && tens == 10 * ten && m == d * ten + n
    ensures w * tens as real == m as real
  {
    TenthOf(w, d, ten, n, v);
  }

  /** It is their numeral over a power of ten. */
  lemma {:induction false} FractionIs(f: string, value: real, tens: nat, n: nat)
    requires AllDigits(f) && value == Fraction(f) && tens == Ten(|f|) && n == Numeral(f)
    ensures value * tens as real == n as real
  {
    if f != "" {
      var g := f[1..];
      var v, ten, m, d := Fraction(g), Ten(|g|), Numeral(g), DigitValue(f[0]);
      FractionIs(g, v, ten, m);
      FirstDigitCounts(f);
      FirstDigitAdds(value, tens, n, d, ten, m, v);
    }
  }

  lemma {:induction false} FractionIsRead(f: string, rest: string)
    requires AllDigits(f) && (rest == "" || !IsDigit(rest[0]))
    ensures FractionAt(f + rest) == (|f|, Fraction(f))
  {
    var s := f + rest;
    if f == "" {
      assert s == rest;
    } else {
      assert s[1..] == f[1..] + rest && s[0] == f[0];
      FractionIsRead(f[1..], rest);
    }
  }

  lemma PointAt(d: string, f: string, rest: string)
    requires d != "" && AllDigits(d)
    ensures var s := d + ("." + (f + rest)); s[0] == d[0] && s[|d|] == '.' && s[|d| + 1..] == f + rest
    ensures DigitsAt(d + ("." + (f + rest)), 0) == (|d|, Numeral(d))
  {
    DigitsAreRead(d, "." + (f + rest), 0);
    assert d[0..] == d && d[..0] == "" && Numeral("") == 0;
  }

  lemma NumberOfParts(s: string, sign: nat, whole: nat, units: nat, places: nat, fraction: real)
    requires NumberStarts(s) && sign == (if s[0] == '-' then 1 else 0) && DigitsAt(s[sign..], 0) == (whole, units)
    requires sign + whole < |s| && s[sign + whole] == '.' && FractionAt(s[sign + whole + 1..]) == (places, fraction)
    ensures var value := units as real + fraction;
      NumberAt(s) == (sign + whole + 1 + places, if sign == 1 then -value else value)
  {
  }

  lemma PointIsRead(d: string, f: string, rest: string, v: real)
    requires d != "" && AllDigits(d) && FractionAt(f + rest) == (|f|, v)
    ensures var s := d + ("." + (f + rest));
      NumberStarts(s) && NumberAt(s) == (|d| + 1 + |f|, Numeral(d) as real + v)
  {
    var s := d + ("." + (f + rest));
    PointAt(d, f, rest);
    assert s[0..] == s && s[0] != '-';
    NumberOfParts(s, 0, |d|, Numeral(d), |f|, v);
  }

  lemma NegativePointIsRead(d: string, f: string, rest: string, v: real)
    requires d != "" && AllDigits(d) && FractionAt(f + rest) == (|f|, v)
    ensures var s := "-" + (d + ("." + (f + rest)));
      NumberStarts(s) && NumberAt(s) == (|d| + 2 + |f|, -(Numeral(d) as real + v))
  {
    var s := d + ("." + (f + rest));
    var t := "-" + s;
    PointAt(d, f, rest);
    assert t[1..] == s && t[0] == '-' && t[1] == d[0] && t[|d| + 1] == '.';
    assert t[|d| + 2..] == s[|d| + 1..];
    NumberOfParts(t, 1, |d|, Numeral(d), |f|, v);
  }

  lemma Pointed(d: string, f: string, letter: string)
    ensures d + "." + f + letter == d + ("." + (f + letter)) && |d + "." + f| == |d| + 1 + |f|
    ensures "-" + (d + "." + f) + letter == "-" + (d + ("." + (f + letter)))
    ensures |"-" + (d + "." + f)| == |d| + 2 + |f|
  {
  }

  lemma PointedNumber(d: string, f: string, letter: string, v: real, value: real)
    requires d != "" && AllDigits(d) && FractionAt(f + letter) == (|f|, v) && value == Numeral(d) as real + v
    ensures var number := d + "." + f;
      NumberStarts(number + letter) && NumberAt(number + letter) == (|number|, value)
  {
    Pointed(d, f, letter);
    PointIsRead(d, f, letter, v);
  }

  lemma NegativeNumber(d: string, f: string, letter: string, v: real, value: real)
    requires d != "" && AllDigits(d) && FractionAt(f + letter) == (|f|, v) && value == Numeral(d) as real + v
    ensures var number := "-" + (d + "." + f);
      NumberStarts(number + letter) && NumberAt(number + letter) == (|number|, -value)
  {
    Pointed(d, f, letter);
    NegativePointIsRead(d, f, letter, v);
  }

  lemma LetterIsNoDigit(u: Unit)
    ensures !IsDigit(Letter(u)[0]) && !IsSpace(Letter(u)[0])
  {
  }

  /** A number with a point is that many of the unit. */
  lemma FractionsAreRead(k: nat, f: string, u: Unit, value: real)
    requires AllDigits(f) && value == k as real + Fraction(f)
    ensures Total(Decimal(k) + "." + f + Letter(u)) == Size(u) as real * value
  {
    LetterIsUnit(u);
    LetterIsNoDigit(u);
    FractionIsRead(f, Letter(u));
    DecimalIsRead(k);
    PointedNumber(Decimal(k), f, Letter(u), Fraction(f), value);
    OneUnit(Decimal(k) + "." + f, value, Letter(u), u);
    WorthIsTimes(value, u);
  }

  /** And with its sign. */
  lemma NegativeFractionsAreRead(k: nat, f: string, u: Unit, value: real)
    requires AllDigits(f) && value == k as real + Fraction(f)
    ensures Total("-" + (Decimal(k) + "." + f) + Letter(u)) == -(Size(u) as real * value)
  {
    LetterIsUnit(u);
    LetterIsNoDigit(u);
    FractionIsRead(f, Letter(u));
    DecimalIsRead(k);
    NegativeNumber(Decimal(k), f, Letter(u), Fraction(f), value);
    OneUnit("-" + (Decimal(k) + "." + f), -value, Letter(u), u);
    WorthIsTimes(value, u);
  }

  lemma WorthIsTimes(value: real, u: Unit)
    ensures Worth(value, u) == Size(u) as real * value && Worth(-value, u) == -Worth(value, u)
  {
  }
}
