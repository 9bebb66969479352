/** sort, from rom/bin/sort.ts. */
module Sort {
  // Keys, the comparison, stable sorting, the check and the unique step. The order of normalised
  // keys is any total preorder, and JavaScript's Array.sort is a stable sort.

  import opened Options
  import opened Sequences
  import opened Text

  // ---------------------------------------------------------------------------
  // Array.sort

  /** Transitivity at three elements. */
  ghost predicate Chained<T>(cmp: (T, T) -> int, a: T, b: T, c: T) {
    cmp(a, b) <= 0 && cmp(b, c) <= 0 ==> cmp(a, c) <= 0
  }

  /** A comparison whose signs are those of a total preorder. */
  ghost predicate IsOrder<T(!new)>(cmp: (T, T) -> int) {
    && (forall a, b :: cmp(a, b) < 0 <==> cmp(b, a) > 0)
    && (forall a, b, c :: Chained(cmp, a, b, c))
  }

  function Inserted<T>(cmp: (T, T) -> int, x: T, s: seq<T>): seq<T> {
    if s == [] || cmp(x, s[0]) <= 0 then [x] + s else [s[0]] + Inserted(cmp, x, s[1..])
  }

  function ArraySort<T>(cmp: (T, T) -> int, s: seq<T>): seq<T> {
    if s == [] then [] else Inserted(cmp, s[0], ArraySort(cmp, s[1..]))
  }

  ghost predicate Ordered<T(!new)>(cmp: (T, T) -> int, s: seq<T>) {
    forall i, j :: 0 <= i < j < |s| ==> cmp(s[i], s[j]) <= 0
  }

  /** The elements that compare equal to this one, in order. */
  function Ties<T>(cmp: (T, T) -> int, s: seq<T>, t: T): seq<T> {
    if s == [] then [] else Tie(cmp, s[0], t) + Ties(cmp, s[1..], t)
  }

  function Tie<T>(cmp: (T, T) -> int, x: T, t: T): seq<T> {
    if cmp(x, t) == 0 then [x] else []
  }

  /** An ordered list in which ties stand as they do in another. */
  ghost predicate StablySorted<T(!new)>(cmp: (T, T) -> int, s: seq<T>, r: seq<T>) {
    Ordered(cmp, r) && forall t :: Ties(cmp, r, t) == Ties(cmp, s, t)
  }

  lemma {:induction false} InsertedElements<T>(cmp: (T, T) -> int, x: T, s: seq<T>)
    ensures multiset(Inserted(cmp, x, s)) == multiset{x} + multiset(s)
  {
    if s == [] || cmp(x, s[0]) <= 0 {
    } else {
      InsertedElements(cmp, x, s[1..]);
      assert s == [s[0]] + s[1..];
    }
  }

  lemma {:induction false} InsertedIsOrdered<T(!new)>(cmp: (T, T) -> int, x: T, s: seq<T>)
    requires IsOrder(cmp) && Ordered(cmp, s)
    ensures Ordered(cmp, Inserted(cmp, x, s))
  {
    if s == [] {
    } else if cmp(x, s[0]) <= 0 {
      forall j | 0 <= j < |s| ensures cmp(x, s[j]) <= 0 {
        assert Chained(cmp, x, s[0], s[j]);
      }
    } else {
      var rest := Inserted(cmp, x, s[1..]);
      InsertedIsOrdered(cmp, x, s[1..]);
      InsertedElements(cmp, x, s[1..]);
      forall j | 0 <= j < |rest| ensures cmp(s[0], rest[j]) <= 0 {
        assert rest[j] in multiset(rest);
        assert rest[j] == x || rest[j] in s[1..];
      }
    }
  }

  lemma TiesCons<T(!new)>(cmp: (T, T) -> int, x: T, s: seq<T>, t: T)
    ensures Ties(cmp, [x] + s, t) == Tie(cmp, x, t) + Ties(cmp, s, t)
  {
    assert ([x] + s)[1..] == s;
  }

  lemma Swap<T>(a: seq<T>, b: seq<T>, c: seq<T>)
    requires a == [] || b == []
    ensures a + (b + c) == b + (a + c)
  {
  }

  lemma {:induction false} InsertedTies<T(!new)>(cmp: (T, T) -> int, x: T, s: seq<T>, t: T)
    requires IsOrder(cmp)
    ensures Ties(cmp, Inserted(cmp, x, s), t) == Tie(cmp, x, t) + Ties(cmp, s, t)
  {
    if s == [] || cmp(x, s[0]) <= 0 {
      TiesCons(cmp, x, s, t);
    } else {
      var rest := Inserted(cmp, x, s[1..]);
      InsertedTies(cmp, x, s[1..], t);
      TiesCons(cmp, s[0], rest, t);
      assert Chained(cmp, x, t, s[0]);
      Swap(Tie(cmp, s[0], t), Tie(cmp, x, t), Ties(cmp, s[1..], t));
    }
  }

  /** Array.sort gives an ordered permutation that keeps ties as they were. */
  lemma {:induction false} SortIsStable<T(!new)>(cmp: (T, T) -> int, s: seq<T>)
    requires IsOrder(cmp)
    ensures StablySorted(cmp, s, ArraySort(cmp, s))
    ensures multiset(ArraySort(cmp, s)) == multiset(s)
  {
    if s != [] {
      var rest := ArraySort(cmp, s[1..]);
      SortIsStable(cmp, s[1..]);
      InsertedIsOrdered(cmp, s[0], rest);
      InsertedElements(cmp, s[0], rest);
      forall t ensures Ties(cmp, ArraySort(cmp, s), t) == Ties(cmp, s, t) {
        InsertedTies(cmp, s[0], rest, t);
      }
      assert s == [s[0]] + s[1..];
    }
  }

  lemma {:induction false} FirstTie<T>(cmp: (T, T) -> int, s: seq<T>, t: T) returns (k: nat)
    requires Ties(cmp, s, t) != []
    ensures k < |s| && cmp(s[k], t) == 0
  {
    if cmp(s[0], t) == 0 {
      k := 0;
    } else {
      var j := FirstTie(cmp, s[1..], t);
      k := j + 1;
    }
  }

  lemma {:induction false} TieIsThere<T>(cmp: (T, T) -> int, s: seq<T>, k: nat, t: T)
    requires k < |s| && cmp(s[k], t) == 0
    ensures Ties(cmp, s, t) != []
  {
    if k > 0 {
      TieIsThere(cmp, s[1..], k - 1, t);
    }
  }

  /** The head of an ordered list comes before everything tied in another that has the ties. */
  lemma HeadIsLeast<T(!new)>(cmp: (T, T) -> int, r: seq<T>, s: seq<T>)
    requires IsOrder(cmp) && Ordered(cmp, r) && r != [] && s != []
    requires forall t :: Ties(cmp, r, t) == Ties(cmp, s, t)
    ensures cmp(r[0], s[0]) <= 0
  {
    TieIsThere(cmp, s, 0, s[0]);
    var k := FirstTie(cmp, r, s[0]);
    assert k == 0 || cmp(r[0], r[k]) <= 0;
    assert Chained(cmp, r[0], r[k], s[0]);
  }

  lemma TailTies<T(!new)>(cmp: (T, T) -> int, r: seq<T>, s: seq<T>, t: T)
    requires r != [] && s != [] && r[0] == s[0] && Ties(cmp, r, t) == Ties(cmp, s, t)
    ensures Ties(cmp, r[1..], t) == Ties(cmp, s[1..], t)
  {
    var head := Tie(cmp, r[0], t);
    assert Ties(cmp, r, t)[|head|..] == Ties(cmp, r[1..], t);
    assert Ties(cmp, s, t)[|head|..] == Ties(cmp, s[1..], t);
  }

  lemma SameHead<T(!new)>(cmp: (T, T) -> int, r: seq<T>, s: seq<T>)
    requires IsOrder(cmp) && Ordered(cmp, r) && Ordered(cmp, s) && r != [] && s != []
    requires forall t :: Ties(cmp, r, t) == Ties(cmp, s, t)
    ensures r[0] == s[0]
  {
    HeadIsLeast(cmp, r, s);
    HeadIsLeast(cmp, s, r);
    assert Ties(cmp, r, s[0])[0] == r[0] && Ties(cmp, s, s[0])[0] == s[0];
  }

  lemma SameEmpty<T(!new)>(cmp: (T, T) -> int, r: seq<T>, s: seq<T>)
    requires IsOrder(cmp) && r == [] && forall t :: Ties(cmp, r, t) == Ties(cmp, s, t)
    ensures s == []
  {
    if s != [] {
      TieIsThere(cmp, s, 0, s[0]);
    }
  }

  /** There is only one ordered list with given ties in a given order. */
  lemma {:induction false} StableSortIsUnique<T(!new)>(cmp: (T, T) -> int, r: seq<T>, s: seq<T>)
    requires IsOrder(cmp) && Ordered(cmp, r) && Ordered(cmp, s)
    requires forall t :: Ties(cmp, r, t) == Ties(cmp, s, t)
    ensures r == s
  {
    if r == [] {
      SameEmpty(cmp, r, s);
    } else if s == [] {
      SameEmpty(cmp, s, r);
    } else {
      SameHead(cmp, r, s);
      forall t ensures Ties(cmp, r[1..], t) == Ties(cmp, s[1..], t) {
        TailTies(cmp, r, s, t);
      }
      StableSortIsUnique(cmp, r[1..], s[1..]);
      assert r == [r[0]] + r[1..] && s == [s[0]] + s[1..];
    }
  }

  // ---------------------------------------------------------------------------
  // Comparing lines

  /** The options.  `fields` splits a line at the separator, `lower` is toLowerCase, and
      `order` compares normalised keys: by locale, as numbers or as sizes. */
  datatype SortOptions = SortOptions(
    reverse: bool, unique: bool, stable: bool,
    ignoreCase: bool, ignoreBlanks: bool, dictionary: bool,
    key: Option<(nat, Option<nat>)>,
    fields: string -> seq<string>,
    lower: string -> string,
    order: (string, string) -> int)

  function ExtractKey(o: SortOptions, line: string): string {
    if o.key.None? then line
    else
      var fields := o.fields(line);
      var start := o.key.value.0 - 1;
      var end := if o.key.value.1.Some? then o.key.value.1.value else start + 1;
      if start < 0 || start >= |fields| then ""
      else Join(if end < start then [] else fields[start..if end > |fields| then |fields| else end], ' ')
  }

  function TrimStart(s: string): string {
    if s != "" && IsSpace(s[0]) then TrimStart(s[1..]) else s
  }

  /** Only blanks, letters and digits. */
  function Dictionary(s: string): string {
    if s == "" then ""
    else
      var c := s[0];
      (if 'a' <= c <= 'z' || 'A' <= c <= 'Z' || '0' <= c <= '9' || IsSpace(c) then [c] else "") + Dictionary(s[1..])
  }

  function NormalizeForCompare(o: SortOptions, line: string): string {
    var r1 := if o.ignoreBlanks then TrimStart(line) else line;
    var r2 := if o.dictionary then Dictionary(r1) else r1;
    if o.ignoreCase then o.lower(r2) else r2
  }

  function CompareLines(o: SortOptions, a: string, b: string): int {
    var r := o.order(NormalizeForCompare(o, ExtractKey(o, a)), NormalizeForCompare(o, ExtractKey(o, b)));
    if o.reverse then -r else r
  }

  function Comparison(o: SortOptions): (string, string) -> int {
    (a, b) => CompareLines(o, a, b)
  }

  /** Comparing lines is a total preorder, in either direction. */
  lemma ComparisonIsOrder(o: SortOptions)
    requires IsOrder(o.order)
    ensures IsOrder(Comparison(o))
  {
    var cmp := Comparison(o);
    forall a, b ensures cmp(a, b) < 0 <==> cmp(b, a) > 0 {
      var x, y := NormalizeForCompare(o, ExtractKey(o, a)), NormalizeForCompare(o, ExtractKey(o, b));
      assert o.order(x, y) < 0 <==> o.order(y, x) > 0;
      assert o.order(y, x) < 0 <==> o.order(x, y) > 0;
    }
    forall a, b, c ensures Chained(cmp, a, b, c) {
      var x, y := NormalizeForCompare(o, ExtractKey(o, a)), NormalizeForCompare(o, ExtractKey(o, b));
      var z := NormalizeForCompare(o, ExtractKey(o, c));
      assert Chained(o.order, x, y, z) && Chained(o.order, z, y, x);
      assert o.order(y, x) < 0 <==> o.order(x, y) > 0;
      assert o.order(z, y) < 0 <==> o.order(y, z) > 0;
      assert o.order(z, x) < 0 <==> o.order(x, z) > 0;
    }
  }

  // ---------------------------------------------------------------------------
  // What the options compare

  /** With no options, lines compare as they are. */
  lemma PlainComparison(o: SortOptions, a: string, b: string)
    requires o.key.None? && !o.ignoreBlanks && !o.dictionary && !o.ignoreCase
    ensures Comparison(o)(a, b) == if o.reverse then -o.order(a, b) else o.order(a, b)
  {
  }

  /** With -k n, lines compare as their n-th fields would with the other options, and a line with
      fewer fields as the empty line. */
  lemma FieldsCompare(o: SortOptions, n: nat, a: string, b: string)
    requires o.key == Some((n, None)) && n >= 1
    ensures var field := (line: string) => var f := o.fields(line); if n <= |f| then f[n - 1] else "";
      Comparison(o)(a, b) == Comparison(o.(key := None))(field(a), field(b))
  {
    var fa, fb := o.fields(a), o.fields(b);
    if n <= |fa| {
      assert fa[n - 1..n] == [fa[n - 1]];
    }
    if n <= |fb| {
      assert fb[n - 1..n] == [fb[n - 1]];
    }
  }

  /** With -k n,m it is the fields from the n-th to the m-th, with a blank between them. */
  lemma FieldRangesCompare(o: SortOptions, n: nat, m: nat, a: string, b: string)
    requires o.key == Some((n, Some(m))) && 1 <= n <= m <= |o.fields(a)| && m <= |o.fields(b)|
    ensures Comparison(o)(a, b) ==
      Comparison(o.(key := None))(Join(o.fields(a)[n - 1..m], ' '), Join(o.fields(b)[n - 1..m], ' '))
  {
  }

  /** So lines with equal n-th fields tie. */
  lemma EqualFieldsTie(o: SortOptions, n: nat, a: string, b: string)
    requires IsOrder(o.order) && o.key == Some((n, None)) && 1 <= n <= |o.fields(a)| && n <= |o.fields(b)|
    requires o.fields(a)[n - 1] == o.fields(b)[n - 1]
    ensures Comparison(o)(a, b) == 0
  {
    var p := o.(key := None);
    var f := o.fields(a)[n - 1];
    FieldsCompare(o, n, a, b);
    ComparisonIsOrder(p);
    assert Comparison(p)(f, f) < 0 <==> Comparison(p)(f, f) > 0;
  }

  predicate IsBlank(s: string) {
    forall k :: 0 <= k < |s| ==> IsSpace(s[k])
  }

  lemma {:induction false} TrimsBlanks(blanks: string, s: string)
    requires IsBlank(blanks)
    ensures TrimStart(blanks + s) == TrimStart(s)
  {
    if blanks == "" {
      assert blanks + s == s;
    } else {
      assert (blanks + s)[1..] == blanks[1..] + s;
      TrimsBlanks(blanks[1..], s);
    }
  }

  /** ignoreBlanks: blanks in front do not count, and nothing else is passed over. */
  lemma BlanksDoNotCount(o: SortOptions, blanks: string, a: string, blanks': string, b: string)
    requires o.key.None? && o.ignoreBlanks && IsBlank(blanks) && IsBlank(blanks')
    requires (a == "" || !IsSpace(a[0])) && (b == "" || !IsSpace(b[0]))
    ensures Comparison(o)(blanks + a, blanks' + b) == Comparison(o.(ignoreBlanks := false))(a, b)
  {
    TrimsBlanks(blanks, a);
    TrimsBlanks(blanks', b);
  }

  lemma {:induction false} DropsFromDictionary(a: string, c: char, b: string)
    requires !('a' <= c <= 'z' || 'A' <= c <= 'Z' || '0' <= c <= '9' || IsSpace(c))
    ensures Dictionary(a + [c] + b) == Dictionary(a + b)
  {
    if a == "" {
      assert (a + [c] + b)[1..] == a + b && a + [c] + b == [c] + b;
    } else {
      assert (a + [c] + b)[1..] == a[1..] + [c] + b && (a + b)[1..] == a[1..] + b;
      DropsFromDictionary(a[1..], c, b);
    }
  }

  /** dictionary: a character that is no letter, digit or blank does not count.  (After
      ignoreBlanks such a character still ends the blanks in front.) */
  lemma OthersDoNotCount(o: SortOptions, a: string, c: char, b: string, line: string)
    requires o.key.None? && o.dictionary && (o.ignoreBlanks ==> a != "" && !IsSpace(a[0]))
    requires !('a' <= c <= 'z' || 'A' <= c <= 'Z' || '0' <= c <= '9' || IsSpace(c))
    ensures Comparison(o)(a + [c] + b, line) == Comparison(o)(a + b, line)
    ensures Comparison(o)(line, a + [c] + b) == Comparison(o)(line, a + b)
  {
    DropsFromDictionary(a, c, b);
    assert a != "" ==> (a + [c] + b)[0] == a[0] && (a + b)[0] == a[0];
  }

  predicate InDictionary(s: string) {
    forall k :: 0 <= k < |s| ==> 'a' <= s[k] <= 'z' || 'A' <= s[k] <= 'Z' || '0' <= s[k] <= '9' || IsSpace(s[k])
  }

  lemma {:induction false} DictionaryKeeps(s: string)
    requires InDictionary(s)
    ensures Dictionary(s) == s
  {
    if s != "" {
      DictionaryKeeps(s[1..]);
    }
  }

  lemma {:induction false} TrimKeepsDictionary(s: string)
    requires InDictionary(s)
    ensures InDictionary(TrimStart(s))
  {
    if s != "" {
      TrimKeepsDictionary(s[1..]);
    }
  }

  /** And all letters, digits and blanks do. */
  lemma LettersCount(o: SortOptions, a: string, b: string)
    requires o.key.None? && o.dictionary && InDictionary(a) && InDictionary(b)
    ensures Comparison(o)(a, b) == Comparison(o.(dictionary := false))(a, b)
  {
    TrimKeepsDictionary(a);
    TrimKeepsDictionary(b);
    DictionaryKeeps(if o.ignoreBlanks then TrimStart(a) else a);
    DictionaryKeeps(if o.ignoreBlanks then TrimStart(b) else b);
  }

  /** ignoreCase: lines compare as they do in lower case. */
  lemma CaseDoesNotCount(o: SortOptions, a: string, b: string)
    requires o.key.None? && !o.ignoreBlanks && !o.dictionary && o.ignoreCase
    ensures Comparison(o)(a, b) == Comparison(o.(ignoreCase := false))(o.lower(a), o.lower(b))
  {
  }

  // ---------------------------------------------------------------------------
  // Checking

  ghost predicate Ascending<T(!new)>(cmp: (T, T) -> int, s: seq<T>) {
    forall i :: 1 <= i < |s| ==> cmp(s[i - 1], s[i]) <= 0
  }

  method CheckSorted(o: SortOptions, lines: seq<string>) returns (sorted: bool)
    ensures sorted <==> Ascending(Comparison(o), lines)
  {
    var i := 1;
    while i < |lines|
      invariant i >= 1 && forall k :: 1 <= k < i && k < |lines| ==> Comparison(o)(lines[k - 1], lines[k]) <= 0
    {
      if CompareLines(o, lines[i - 1], lines[i]) > 0 {
        assert Comparison(o)(lines[i - 1], lines[i]) > 0;
        return false;
      }
      i := i + 1;
    }
    return true;
  }

  lemma {:induction false} AscendingAt<T(!new)>(cmp: (T, T) -> int, s: seq<T>, i: nat, j: nat)
    requires IsOrder(cmp) && Ascending(cmp, s) && i < j < |s|
    ensures cmp(s[i], s[j]) <= 0
  {
    assert cmp(s[j - 1], s[j]) <= 0;
    if i < j - 1 {
      AscendingAt(cmp, s, i, j - 1);
      assert Chained(cmp, s[i], s[j - 1], s[j]);
    }
  }

  /** The check, which looks at neighbours, passes exactly when the stable sort leaves the
      input as it is. */
  lemma {:induction false} CheckIffSortKeeps<T(!new)>(cmp: (T, T) -> int, s: seq<T>)
    requires IsOrder(cmp)
    ensures Ascending(cmp, s) <==> ArraySort(cmp, s) == s
  {
    SortIsStable(cmp, s);
    if Ascending(cmp, s) {
      forall i, j | 0 <= i < j < |s| ensures cmp(s[i], s[j]) <= 0 {
        AscendingAt(cmp, s, i, j);
      }
      StableSortIsUnique(cmp, ArraySort(cmp, s), s);
    } else {
      var i :| 1 <= i < |s| && cmp(s[i - 1], s[i]) > 0;
      assert cmp(s[i - 1], s[i]) > 0;
    }
  }

  /** Sorting again changes nothing. */
  lemma SortIsIdempotent<T(!new)>(cmp: (T, T) -> int, s: seq<T>)
    requires IsOrder(cmp)
    ensures ArraySort(cmp, ArraySort(cmp, s)) == ArraySort(cmp, s)
  {
    SortIsStable(cmp, s);
    SortIsStable(cmp, ArraySort(cmp, s));
    StableSortIsUnique(cmp, ArraySort(cmp, ArraySort(cmp, s)), ArraySort(cmp, s));
  }

  // ---------------------------------------------------------------------------
  // The stable flag

  /** Lines with their places, from n on. */
  function Indexed(s: seq<string>, n: nat): seq<(string, nat)> {
    if s == [] then [] else [(s[0], n)] + Indexed(s[1..], n + 1)
  }

  function ByIndexToo(o: SortOptions): ((string, nat), (string, nat)) -> int {
    (a: (string, nat), b: (string, nat)) =>
      if CompareLines(o, a.0, b.0) != 0 then CompareLines(o, a.0, b.0) else a.1 - b.1
  }

  function Texts(s: seq<(string, nat)>): (r: seq<string>)
    ensures |r| == |s|
  {
    if s == [] then [] else [s[0].0] + Texts(s[1..])
  }

  /** What the sorting step gives. */
  function Sorted(o: SortOptions, lines: seq<string>): seq<string> {
    if o.stable then Texts(ArraySort(ByIndexToo(o), Indexed(lines, 0))) else ArraySort(Comparison(o), lines)
  }

  predicate AllFrom(s: seq<(string, nat)>, n: nat) {
    forall k :: 0 <= k < |s| ==> s[k].1 >= n
  }

  lemma {:induction false} InsertedTexts(o: SortOptions, x: (string, nat), s: seq<(string, nat)>)
    requires AllFrom(s, x.1 + 1)
    ensures Texts(Inserted(ByIndexToo(o), x, s)) == Inserted(Comparison(o), x.0, Texts(s))
    ensures AllFrom(Inserted(ByIndexToo(o), x, s), x.1)
  {
    if s == [] {
    } else {
      assert s[0].1 >= x.1 + 1;
      if ByIndexToo(o)(x, s[0]) > 0 {
        forall k | 0 <= k < |s[1..]| ensures s[1..][k].1 >= x.1 + 1 {
          assert s[1..][k] == s[k + 1];
        }
        InsertedTexts(o, x, s[1..]);
      }
    }
  }

  lemma {:induction false} IndexChangesNothing(o: SortOptions, lines: seq<string>, n: nat)
    ensures Texts(ArraySort(ByIndexToo(o), Indexed(lines, n))) == ArraySort(Comparison(o), lines)
    ensures AllFrom(ArraySort(ByIndexToo(o), Indexed(lines, n)), n)
  {
    if lines != [] {
      IndexChangesNothing(o, lines[1..], n + 1);
      InsertedTexts(o, (lines[0], n), ArraySort(ByIndexToo(o), Indexed(lines[1..], n + 1)));
      assert Indexed(lines, n)[1..] == Indexed(lines[1..], n + 1);
    }
  }

  /** The stable flag changes nothing: with it and without it, the result is the one ordered
      arrangement of the lines that keeps ties in input order. */
  lemma SortedIsStable(o: SortOptions, lines: seq<string>)
    requires IsOrder(o.order)
    ensures Sorted(o, lines) == ArraySort(Comparison(o), lines)
    ensures StablySorted(Comparison(o), lines, Sorted(o, lines))
    ensures multiset(Sorted(o, lines)) == multiset(lines)
  {
    ComparisonIsOrder(o);
    IndexChangesNothing(o, lines, 0);
    SortIsStable(Comparison(o), lines);
  }

  // ---------------------------------------------------------------------------
  // Reversing

  function Reversed<T>(s: seq<T>): (r: seq<T>)
    ensures |r| == |s| && forall k :: 0 <= k < |s| ==> r[k] == s[|s| - 1 - k]
  {
    if s == [] then [] else Reversed(s[1..]) + [s[0]]
  }

  lemma {:induction false} TiesOfMore<T(!new)>(cmp: (T, T) -> int, s: seq<T>, x: T, t: T)
    ensures Ties(cmp, s + [x], t) == Ties(cmp, s, t) + Tie(cmp, x, t)
  {
    if s == [] {
      assert s + [x] == [x] + [];
      TiesCons(cmp, x, [], t);
    } else {
      assert (s + [x])[1..] == s[1..] + [x];
      TiesOfMore(cmp, s[1..], x, t);
      Regroup(Tie(cmp, s[0], t), Ties(cmp, s[1..], t), Tie(cmp, x, t));
    }
  }

  lemma {:induction false} TiesReversed<T(!new)>(cmp: (T, T) -> int, s: seq<T>, t: T)
    ensures Ties(cmp, Reversed(s), t) == Reversed(Ties(cmp, s, t))
  {
    if s != [] {
      TiesReversed(cmp, s[1..], t);
      TiesOfMore(cmp, Reversed(s[1..]), s[0], t);
      var rest := Ties(cmp, s[1..], t);
      if cmp(s[0], t) == 0 {
        assert ([s[0]] + rest)[1..] == rest;
      }
    }
  }

  lemma {:induction false} SameTies<T(!new)>(cmp: (T, T) -> int, back: (T, T) -> int, s: seq<T>, t: T)
    requires forall a, b :: back(a, b) == -cmp(a, b)
    ensures Ties(back, s, t) == Ties(cmp, s, t)
  {
    if s != [] {
      SameTies(cmp, back, s[1..], t);
    }
  }

  lemma ReversedIsOrdered<T(!new)>(cmp: (T, T) -> int, back: (T, T) -> int, s: seq<T>)
    requires IsOrder(cmp) && Ordered(cmp, s) && forall a, b :: back(a, b) == -cmp(a, b)
    ensures Ordered(back, Reversed(s))
  {
    var r := Reversed(s);
    forall i, j | 0 <= i < j < |r| ensures back(r[i], r[j]) <= 0 {
      var x, y := s[|s| - 1 - j], s[|s| - 1 - i];
      assert cmp(x, y) <= 0 && (cmp(y, x) < 0 <==> cmp(x, y) > 0);
      assert back(r[i], r[j]) == -cmp(y, x);
    }
  }

  lemma BackIsOrder<T(!new)>(cmp: (T, T) -> int, back: (T, T) -> int)
    requires IsOrder(cmp) && forall a, b :: back(a, b) == -cmp(a, b)
    ensures IsOrder(back)
  {
    forall a, b ensures back(a, b) < 0 <==> back(b, a) > 0 {
      assert cmp(b, a) < 0 <==> cmp(a, b) > 0;
    }
    forall a, b, c ensures Chained(back, a, b, c) {
      assert Chained(cmp, c, b, a);
      assert (cmp(b, a) < 0 <==> cmp(a, b) > 0) && (cmp(c, b) < 0 <==> cmp(b, c) > 0);
      assert cmp(c, a) < 0 <==> cmp(a, c) > 0;
    }
  }

  /** Sorting in reverse is sorting the lines read backwards, read backwards. */
  lemma ReverseSort<T(!new)>(cmp: (T, T) -> int, back: (T, T) -> int, s: seq<T>)
    requires IsOrder(cmp) && forall a, b :: back(a, b) == -cmp(a, b)
    ensures ArraySort(back, s) == Reversed(ArraySort(cmp, Reversed(s)))
  {
    var r := Reversed(ArraySort(cmp, Reversed(s)));
    BackIsOrder(cmp, back);
    SortIsStable(cmp, Reversed(s));
    SortIsStable(back, s);
    ReversedIsOrdered(cmp, back, ArraySort(cmp, Reversed(s)));
    forall t ensures Ties(back, ArraySort(back, s), t) == Ties(back, r, t) {
      SameTies(cmp, back, s, t);
      SameTies(cmp, back, r, t);
      TiesReversed(cmp, ArraySort(cmp, Reversed(s)), t);
      TiesReversed(cmp, s, t);
      ReversedTwice(Ties(cmp, s, t));
    }
    StableSortIsUnique(back, ArraySort(back, s), r);
  }

  /** The reverse flag: the lines sorted without it from the input read backwards, read
      backwards, so that ties stay in input order. */
  lemma ReverseFlag(o: SortOptions, lines: seq<string>)
    requires IsOrder(o.order) && !o.reverse
    ensures Sorted(o.(reverse := true), lines) == Reversed(Sorted(o, Reversed(lines)))
  {
    ReversedIsSorted(o, o.(reverse := true), lines);
  }

  lemma ReversedIsSorted(o: SortOptions, back: SortOptions, lines: seq<string>)
    requires IsOrder(o.order) && back.order == o.order
    requires forall a, b :: Comparison(back)(a, b) == -Comparison(o)(a, b)
    ensures Sorted(back, lines) == Reversed(Sorted(o, Reversed(lines)))
  {
    SortedIsStable(back, lines);
    SortedIsStable(o, Reversed(lines));
    ComparisonIsOrder(o);
    ReverseSort(Comparison(o), Comparison(back), lines);
  }

  lemma ReversedTwice<T>(s: seq<T>)
    ensures Reversed(Reversed(s)) == s
  {
  }

  // ---------------------------------------------------------------------------
  // Unique

  function UniqueKey(o: SortOptions, line: string): string {
    if o.ignoreCase then o.lower(line) else line
  }

  /** The lines whose keys were not seen before. */
  function Unseen(o: SortOptions, lines: seq<string>, seen: set<string>): seq<string> {
    if lines == [] then []
    else if UniqueKey(o, lines[0]) in seen then Unseen(o, lines[1..], seen)
    else [lines[0]] + Unseen(o, lines[1..], seen + {UniqueKey(o, lines[0])})
  }

  /** The sorting step and the unique step. */
  method SortLines(o: SortOptions, lines: seq<string>) returns (items: seq<string>)
    ensures items == if o.unique then Unseen(o, Sorted(o, lines), {}) else Sorted(o, lines)
  {
    var sorted: seq<string>;
    if o.stable {
      sorted := Texts(ArraySort(ByIndexToo(o), Indexed(lines, 0)));
    } else {
      sorted := ArraySort(Comparison(o), lines);
    }
    if !o.unique {
      return sorted;
    }
    items := [];
    var seen: set<string> := {};
    ghost var all := Unseen(o, sorted, {});
    assert [] + all == all && sorted[0..] == sorted;
    for k := 0 to |sorted|
      invariant all == items + Unseen(o, sorted[k..], seen)
    {
      var uniqueKey := UniqueKey(o, sorted[k]);
      assert sorted[k..][0] == sorted[k] && sorted[k..][1..] == sorted[k + 1..];
      if uniqueKey !in seen {
        Regroup(items, [sorted[k]], Unseen(o, sorted[k + 1..], seen + {uniqueKey}));
        seen := seen + {uniqueKey};
        items := items + [sorted[k]];
      }
    }
    assert items + [] == items;
  }

  /** Is a line kept: is it the first with its key? */
  predicate IsFirst(o: SortOptions, lines: seq<string>, k: nat)
    requires k < |lines|
  {
    forall j :: 0 <= j < k ==> UniqueKey(o, lines[j]) != UniqueKey(o, lines[k])
  }

  /** No two lines have the same key, and none has a key seen before. */
  ghost predicate KeysApart(o: SortOptions, r: seq<string>, seen: set<string>) {
    && (forall i :: 0 <= i < |r| ==> UniqueKey(o, r[i]) !in seen)
    && (forall i, j :: 0 <= i < j < |r| ==> UniqueKey(o, r[i]) != UniqueKey(o, r[j]))
  }

  lemma OneMoreApart(o: SortOptions, x: string, r: seq<string>, seen: set<string>)
    requires UniqueKey(o, x) !in seen && KeysApart(o, r, seen + {UniqueKey(o, x)})
    ensures KeysApart(o, [x] + r, seen)
  {
    var all := [x] + r;
    forall i | 0 <= i < |all| ensures UniqueKey(o, all[i]) !in seen {
    }
    forall i, j | 0 <= i < j < |all| ensures UniqueKey(o, all[i]) != UniqueKey(o, all[j]) {
      assert UniqueKey(o, r[j - 1]) !in seen + {UniqueKey(o, x)};
    }
  }

  lemma {:induction false} KeysDiffer(o: SortOptions, lines: seq<string>, seen: set<string>)
    ensures KeysApart(o, Unseen(o, lines, seen), seen)
  {
    if lines == [] {
    } else {
      var key := UniqueKey(o, lines[0]);
      if key in seen {
        KeysDiffer(o, lines[1..], seen);
      } else {
        KeysDiffer(o, lines[1..], seen + {key});
        OneMoreApart(o, lines[0], Unseen(o, lines[1..], seen + {key}), seen);
      }
    }
  }

  predicate HasKey(o: SortOptions, r: seq<string>, key: string) {
    exists i :: 0 <= i < |r| && UniqueKey(o, r[i]) == key
  }

  lemma HasKeyMore(o: SortOptions, x: string, r: seq<string>, key: string)
    ensures HasKey(o, [x] + r, key) <==> UniqueKey(o, x) == key || HasKey(o, r, key)
  {
    var all := [x] + r;
    if i :| 0 <= i < |r| && UniqueKey(o, r[i]) == key {
      assert all[i + 1] == r[i];
    }
    assert all[0] == x;
  }

  lemma {:induction false} EveryKey(o: SortOptions, lines: seq<string>, seen: set<string>, key: string)
    requires HasKey(o, lines, key) && key !in seen
    ensures HasKey(o, Unseen(o, lines, seen), key)
  {
    var first := UniqueKey(o, lines[0]);
    assert lines == [lines[0]] + lines[1..];
    HasKeyMore(o, lines[0], lines[1..], key);
    if first in seen {
      EveryKey(o, lines[1..], seen, key);
    } else {
      HasKeyMore(o, lines[0], Unseen(o, lines[1..], seen + {first}), key);
      if first != key {
        EveryKey(o, lines[1..], seen + {first}, key);
      }
    }
  }

  /** Places in increasing order, of which the lines are those kept. */
  ghost predicate Picks(lines: seq<string>, places: seq<nat>, r: seq<string>) {
    && |places| == |r|
    && (forall i :: 0 <= i < |places| ==> places[i] < |lines| && lines[places[i]] == r[i])
    && (forall i, j :: 0 <= i < j < |places| ==> places[i] < places[j])
  }

  /** Each place is the first with its key, and its key was not seen before. */
  ghost predicate AreFirsts(o: SortOptions, lines: seq<string>, places: seq<nat>, seen: set<string>) {
    forall i :: 0 <= i < |places| ==>
      places[i] < |lines| && IsFirst(o, lines, places[i]) && UniqueKey(o, lines[places[i]]) !in seen
  }

  /** Places in the tail, moved by one. */
  function Moved(places: seq<nat>): (r: seq<nat>)
    ensures |r| == |places| && forall i :: 0 <= i < |r| ==> r[i] == places[i] + 1
  {
    seq(|places|, i requires 0 <= i < |places| => places[i] + 1)
  }

  lemma MovedFirsts(o: SortOptions, lines: seq<string>, later: seq<nat>, seen: set<string>)
    requires lines != []
    requires AreFirsts(o, lines[1..], later, seen + {UniqueKey(o, lines[0])})
    ensures AreFirsts(o, lines, Moved(later), seen)
  {
    forall i | 0 <= i < |later|
      ensures later[i] + 1 < |lines| && IsFirst(o, lines, later[i] + 1) && UniqueKey(o, lines[later[i] + 1]) !in seen
    {
      assert lines[1..][later[i]] == lines[later[i] + 1];
      forall j | 0 <= j < later[i] + 1 ensures UniqueKey(o, lines[j]) != UniqueKey(o, lines[later[i] + 1]) {
        assert j > 0 ==> lines[1..][j - 1] == lines[j];
      }
    }
  }

  lemma ZeroFirst(o: SortOptions, lines: seq<string>, later: seq<nat>, seen: set<string>)
    requires lines != [] && UniqueKey(o, lines[0]) !in seen && AreFirsts(o, lines, later, seen)
    ensures AreFirsts(o, lines, [0] + later, seen)
  {
  }

  lemma MovedPicks(lines: seq<string>, later: seq<nat>, rest: seq<string>)
    requires lines != [] && Picks(lines[1..], later, rest)
    ensures Picks(lines, Moved(later), rest) && Picks(lines, [0] + Moved(later), [lines[0]] + rest)
  {
  }

  lemma {:induction false} UnseenPicks(o: SortOptions, lines: seq<string>, seen: set<string>) returns (places: seq<nat>)
    ensures Picks(lines, places, Unseen(o, lines, seen)) && AreFirsts(o, lines, places, seen)
  {
    if lines == [] {
      places := [];
    } else {
      var key := UniqueKey(o, lines[0]);
      var later := UnseenPicks(o, lines[1..], if key in seen then seen else seen + {key});
      assert key in seen ==> seen + {key} == seen;
      MovedFirsts(o, lines, later, seen);
      MovedPicks(lines, later, Unseen(o, lines[1..], if key in seen then seen else seen + {key}));
      if key in seen {
        places := Moved(later);
      } else {
        ZeroFirst(o, lines, Moved(later), seen);
        places := [0] + Moved(later);
      }
    }
  }

  lemma PicksStayOrdered(o: SortOptions, lines: seq<string>, places: seq<nat>, r: seq<string>)
    requires Picks(lines, places, r) && Ordered(Comparison(o), lines)
    ensures Ordered(Comparison(o), r)
  {
    forall i, j | 0 <= i < j < |r| ensures Comparison(o)(r[i], r[j]) <= 0 {
      assert places[i] < places[j];
    }
  }

  lemma SortedHasAll(o: SortOptions, lines: seq<string>, k: nat)
    requires IsOrder(o.order) && k < |lines|
    ensures lines[k] in Sorted(o, lines)
  {
    SortedIsStable(o, lines);
    assert lines[k] in multiset(lines);
    assert lines[k] in multiset(Sorted(o, lines));
  }

  /** The unique step keeps the first line of every key, in order. */
  lemma UniqueKeepsFirsts(o: SortOptions, lines: seq<string>)
    requires IsOrder(o.order)
    ensures var s := Sorted(o, lines); var r := Unseen(o, s, {});
      && Ordered(Comparison(o), r)
      && exists places :: Picks(s, places, r) && AreFirsts(o, s, places, {})
  {
    var s := Sorted(o, lines);
    SortedIsStable(o, lines);
    var places := UnseenPicks(o, s, {});
    PicksStayOrdered(o, s, places, Unseen(o, s, {}));
  }

  /** Exactly one line is kept for every key of the input. */
  lemma UniqueKeepsEveryKey(o: SortOptions, lines: seq<string>)
    requires IsOrder(o.order)
    ensures var r := Unseen(o, Sorted(o, lines), {});
      && (forall i, j :: 0 <= i < j < |r| ==> UniqueKey(o, r[i]) != UniqueKey(o, r[j]))
      && (forall k :: 0 <= k < |lines| ==> HasKey(o, r, UniqueKey(o, lines[k])))
  {
    var s := Sorted(o, lines);
    KeysDiffer(o, s, {});
    forall k | 0 <= k < |lines| ensures HasKey(o, Unseen(o, s, {}), UniqueKey(o, lines[k])) {
      SortedHasAll(o, lines, k);
      var m :| 0 <= m < |s| && s[m] == lines[k];
      assert HasKey(o, s, UniqueKey(o, lines[k]));
      EveryKey(o, s, {}, UniqueKey(o, lines[k]));
    }
  }

  /** Without ignoreCase, the output holds every line of the input exactly once. */
  lemma UniqueHoldsLines(o: SortOptions, lines: seq<string>)
    requires IsOrder(o.order) && !o.ignoreCase
    ensures var r := Unseen(o, Sorted(o, lines), {});
      && (forall i, j :: 0 <= i < j < |r| ==> r[i] != r[j])
      && (forall line :: line in r <==> line in lines)
  {
    var r := Unseen(o, Sorted(o, lines), {});
    UniqueKeepsEveryKey(o, lines);
    forall k | 0 <= k < |lines| ensures lines[k] in r {
      assert HasKey(o, r, UniqueKey(o, lines[k]));
    }
    forall i | 0 <= i < |r| ensures r[i] in lines {
      var k := KeptIsALine(o, lines, i);
    }
  }

  /** With it, one line for all those with the same lower case. */
  lemma UniqueHoldsLowerCase(o: SortOptions, lines: seq<string>)
    requires IsOrder(o.order) && o.ignoreCase
    ensures var r := Unseen(o, Sorted(o, lines), {});
      && (forall i, j :: 0 <= i < j < |r| ==> o.lower(r[i]) != o.lower(r[j]))
      && (forall i :: 0 <= i < |r| ==> r[i] in lines)
      && (forall k :: 0 <= k < |lines| ==> exists i :: 0 <= i < |r| && o.lower(r[i]) == o.lower(lines[k]))
  {
    var r := Unseen(o, Sorted(o, lines), {});
    UniqueKeepsEveryKey(o, lines);
    forall k | 0 <= k < |lines| ensures exists i :: 0 <= i < |r| && o.lower(r[i]) == o.lower(lines[k]) {
      assert HasKey(o, r, UniqueKey(o, lines[k]));
    }
    forall i | 0 <= i < |r| ensures r[i] in lines {
      var k := KeptIsALine(o, lines, i);
    }
  }

  ghost predicate Strict(cmp: (string, string) -> int, r: seq<string>) {
    forall i, j :: 0 <= i < j < |r| ==> cmp(r[i], r[j]) != 0
  }

  /** No line with the same key is below it. */
  ghost predicate IsLowest(o: SortOptions, lines: seq<string>, line: string) {
    forall k :: 0 <= k < |lines| && UniqueKey(o, lines[k]) == UniqueKey(o, line) ==> Comparison(o)(line, lines[k]) <= 0
  }

  /** Lines that compare equal share their key. */
  ghost predicate TieSharesKey(o: SortOptions, a: string, b: string) {
    Comparison(o)(a, b) == 0 ==> UniqueKey(o, a) == UniqueKey(o, b)
  }

  /** The same for the lines that are lowest for their keys. */
  ghost predicate LowestTiesShareKeys(o: SortOptions, lines: seq<string>) {
    forall i, j :: 0 <= i < |lines| && 0 <= j < |lines| ==>
      IsLowest(o, lines, lines[i]) && IsLowest(o, lines, lines[j]) ==> TieSharesKey(o, lines[i], lines[j])
  }

  lemma KeptIsALine(o: SortOptions, lines: seq<string>, i: nat) returns (k: nat)
    requires IsOrder(o.order) && i < |Unseen(o, Sorted(o, lines), {})|
    ensures k < |lines| && lines[k] == Unseen(o, Sorted(o, lines), {})[i] && IsLowest(o, lines, lines[k])
  {
    var s := Sorted(o, lines);
    SortedIsStable(o, lines);
    var places := UnseenPicks(o, s, {});
    var p := places[i];
    assert s[p] in multiset(s);
    assert s[p] in multiset(lines);
    k :| 0 <= k < |lines| && lines[k] == s[p];
    forall m | 0 <= m < |lines| && UniqueKey(o, lines[m]) == UniqueKey(o, s[p])
      ensures Comparison(o)(s[p], lines[m]) <= 0
    {
      SortedHasAll(o, lines, m);
      FirstIsLowest(o, s, p, lines[m]);
    }
  }

  lemma FirstIsLowest(o: SortOptions, s: seq<string>, p: nat, line: string)
    requires IsOrder(o.order) && Ordered(Comparison(o), s) && p < |s| && IsFirst(o, s, p)
    requires line in s && UniqueKey(o, line) == UniqueKey(o, s[p])
    ensures Comparison(o)(s[p], line) <= 0
  {
    ComparisonIsOrder(o);
    var q :| 0 <= q < |s| && s[q] == line;
    assert q >= p;
  }

  lemma LowestTie(o: SortOptions, a: string, b: string, c: string, d: string)
    requires IsOrder(o.order) && Comparison(o)(a, b) == 0
    requires Comparison(o)(a, c) <= 0 && Comparison(o)(c, a) <= 0
    requires Comparison(o)(b, d) <= 0 && Comparison(o)(d, b) <= 0
    ensures Comparison(o)(c, d) == 0 && Comparison(o)(d, c) == 0
  {
    var cmp := Comparison(o);
    ComparisonIsOrder(o);
    assert Chained(cmp, c, a, b) && Chained(cmp, c, b, d) && Chained(cmp, d, b, a) && Chained(cmp, d, a, c);
    assert (cmp(b, a) < 0 <==> cmp(a, b) > 0) && (cmp(a, b) < 0 <==> cmp(b, a) > 0);
    assert (cmp(c, d) < 0 <==> cmp(d, c) > 0) && (cmp(d, c) < 0 <==> cmp(c, d) > 0);
  }

  /** The kept line with the key of a lowest line is as low. */
  lemma KeptLowest(o: SortOptions, lines: seq<string>, a: nat) returns (i: nat)
    requires IsOrder(o.order) && a < |lines| && IsLowest(o, lines, lines[a])
    ensures var r := Unseen(o, Sorted(o, lines), {});
      && i < |r| && UniqueKey(o, r[i]) == UniqueKey(o, lines[a])
      && Comparison(o)(lines[a], r[i]) <= 0 && Comparison(o)(r[i], lines[a]) <= 0
  {
    var r := Unseen(o, Sorted(o, lines), {});
    UniqueKeepsEveryKey(o, lines);
    assert HasKey(o, r, UniqueKey(o, lines[a]));
    i :| 0 <= i < |r| && UniqueKey(o, r[i]) == UniqueKey(o, lines[a]);
    var k := KeptIsALine(o, lines, i);
  }

  lemma SharedIsStrict(o: SortOptions, lines: seq<string>)
    requires IsOrder(o.order) && LowestTiesShareKeys(o, lines)
    ensures Strict(Comparison(o), Unseen(o, Sorted(o, lines), {}))
  {
    var r := Unseen(o, Sorted(o, lines), {});
    UniqueKeepsEveryKey(o, lines);
    forall i, j | 0 <= i < j < |r| ensures Comparison(o)(r[i], r[j]) != 0 {
      var a := KeptIsALine(o, lines, i);
      var b := KeptIsALine(o, lines, j);
      assert TieSharesKey(o, lines[a], lines[b]);
    }
  }

  lemma StrictIsShared(o: SortOptions, lines: seq<string>)
    requires IsOrder(o.order) && Strict(Comparison(o), Unseen(o, Sorted(o, lines), {}))
    ensures LowestTiesShareKeys(o, lines)
  {
    var r := Unseen(o, Sorted(o, lines), {});
    forall a, b | 0 <= a < |lines| && 0 <= b < |lines| && IsLowest(o, lines, lines[a]) && IsLowest(o, lines, lines[b])
      ensures TieSharesKey(o, lines[a], lines[b])
    {
      var i := KeptLowest(o, lines, a);
      var j := KeptLowest(o, lines, b);
      if Comparison(o)(lines[a], lines[b]) == 0 {
        LowestTie(o, lines[a], lines[b], r[i], r[j]);
      }
    }
  }

  /** The unique step goes by the lines, not by the sort keys: its output has no two lines that
      compare equal exactly when, of the input lines lowest for their unique key, those that
      compare equal share it. */
  lemma UniqueIsStrictIff(o: SortOptions, lines: seq<string>)
    requires IsOrder(o.order)
    ensures Strict(Comparison(o), Unseen(o, Sorted(o, lines), {})) <==> LowestTiesShareKeys(o, lines)
  {
    if LowestTiesShareKeys(o, lines) {
      SharedIsStrict(o, lines);
    }
    if Strict(Comparison(o), Unseen(o, Sorted(o, lines), {})) {
      StrictIsShared(o, lines);
    }
  }

  /** Do lines with the same unique key compare equal? */
  ghost predicate KeysTie(o: SortOptions, lines: seq<string>) {
    forall i, j :: 0 <= i < |lines| && 0 <= j < |lines| ==>
      UniqueKey(o, lines[i]) == UniqueKey(o, lines[j]) ==> Comparison(o)(lines[i], lines[j]) == 0
  }

  /** When they do, as always without ignoreCase, every line is lowest for its key and counts. */
  lemma UniqueIsStrictByLines(o: SortOptions, lines: seq<string>)
    requires IsOrder(o.order) && (!o.ignoreCase || KeysTie(o, lines))
    ensures Strict(Comparison(o), Unseen(o, Sorted(o, lines), {})) <==>
      forall i, j :: 0 <= i < |lines| && 0 <= j < |lines| ==> TieSharesKey(o, lines[i], lines[j])
  {
    ComparisonIsOrder(o);
    UniqueIsStrictIff(o, lines);
    forall i | 0 <= i < |lines| ensures IsLowest(o, lines, lines[i]) {
    }
  }
}
