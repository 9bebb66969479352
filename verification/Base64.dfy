/** Base64 as rom/bin/base64.ts and src/auth/jwt.ts use it: JavaScript's btoa and atob
    (sections 3 and 4 of RFC 4648, with the leniency of atob), line wrapping, and the
    unpadded alphabet for URLs (section 5). */
module Base64 {
  import opened Bytes
  import opened Options
  import opened Sequences
  import opened Text

  // ---------------------------------------------------------------------------
  // btoa and atob

  function Symbol(n: nat): (c: char)
    requires n < 64
    ensures IsSymbol(c)
  {
    if n < 26 then 'A' + n as char
    else if n < 52 then 'a' + (n - 26) as char
    else if n < 62 then '0' + (n - 52) as char
    else if n == 62 then '+' else '/'
  }

  predicate IsSymbol(c: char) {
    'A' <= c <= 'Z' || 'a' <= c <= 'z' || '0' <= c <= '9' || c == '+' || c == '/'
  }

  function ValueOf(c: char): (n: nat)
    requires IsSymbol(c)
    ensures n < 64 && Symbol(n) == c
  {
    var code := c as int;
    if 'A' <= c <= 'Z' then code - 'A' as int
    else if 'a' <= c <= 'z' then code - 'a' as int + 26
    else if '0' <= c <= '9' then code - '0' as int + 52
    else if c == '+' then 62 else 63
  }

  /** A number of six bits. */
  type Six = n: nat | n < 64

  /** The bits of the bytes, six at a time; missing bits at the end are zero. */
  function Sixes(b: bytes): (s: seq<Six>)
    ensures |s| == SymbolCount(|b|)
  {
    if |b| == 0 then []
    else
      var b0 := b[0] as int;
      if |b| == 1 then [b0 / 4, b0 % 4 * 16]
      else
        var b1 := b[1] as int;
        if |b| == 2 then [b0 / 4, b0 % 4 * 16 + b1 / 16, b1 % 16 * 4]
        else
          var b2 := b[2] as int;
          [b0 / 4, b0 % 4 * 16 + b1 / 16, b1 % 16 * 4 + b2 / 64, b2 % 64] + Sixes(b[3..])
  }

  function SymbolCount(length: nat): (n: nat)
    ensures n % 4 == if length % 3 == 0 then 0 else length % 3 + 1
  {
    if length == 0 then 0 else if length < 3 then length + 1 else 4 + SymbolCount(length - 3)
  }

  /** The bytes of such numbers; bits that do not make a byte are dropped. */
  function Eights(s: seq<Six>): bytes {
    if |s| < 2 then []
    else
      var v0: int, v1: int := s[0], s[1];
      var b0 := (v0 * 4 + v1 / 16) as byte;
      if |s| == 2 then [b0]
      else
        var v2: int := s[2];
        var b1 := (v1 % 16 * 16 + v2 / 4) as byte;
        if |s| == 3 then [b0, b1]
        else
          var v3: int := s[3];
          [b0, b1, (v2 % 4 * 64 + v3) as byte] + Eights(s[4..])
  }

  /** The symbols of the bytes, without padding. */
  function Symbols(b: bytes): (s: string)
    ensures |s| == SymbolCount(|b|) && AllSymbols(s)
  {
    seq(|Sixes(b)|, k requires 0 <= k < |Sixes(b)| => Symbol(Sixes(b)[k]))
  }

  function Padding(length: nat): string {
    if length % 3 == 1 then "==" else if length % 3 == 2 then "=" else ""
  }

  function Btoa(b: bytes): string {
    Symbols(b) + Padding(|b|)
  }

  predicate AllSymbols(s: string) {
    forall k :: 0 <= k < |s| ==> IsSymbol(s[k])
  }

  function ValuesOf(s: string): (v: seq<Six>)
    requires AllSymbols(s)
    ensures |v| == |s|
  {
    seq(|s|, k requires 0 <= k < |s| => ValueOf(s[k]))
  }

  function BytesOf(s: string): bytes
    requires AllSymbols(s)
  {
    Eights(ValuesOf(s))
  }

  /** The alphabet of section 4 of RFC 4648: capitals, small letters, digits, `+` and `/`. */
  lemma AlphabetIs(n: nat)
    requires n < 64
    ensures Symbol(0) == 'A' && Symbol(25) == 'Z' && Symbol(26) == 'a' && Symbol(51) == 'z'
    ensures Symbol(52) == '0' && Symbol(61) == '9' && Symbol(62) == '+' && Symbol(63) == '/'
    ensures n !in {25, 51, 61, 62, 63} ==> Symbol(n + 1) as int == Symbol(n) as int + 1
  {
  }

  predicate IsAsciiSpace(c: char) {
    c in {'\t', '\n', '\U{000C}', '\r', ' '}
  }

  function WithoutSpace(s: string): string {
    if s == "" then "" else (if IsAsciiSpace(s[0]) then "" else [s[0]]) + WithoutSpace(s[1..])
  }

  function DropPad(s: string): string {
    if s != "" && s[|s| - 1] == '=' then s[..|s| - 1] else s
  }

  /** atob: the forgiving decode of the WHATWG Infra standard. */
  function Atob(s: string): Option<bytes> {
    var t := WithoutSpace(s);
    var u := if |t| % 4 == 0 then DropPad(DropPad(t)) else t;
    if |u| % 4 == 1 || !AllSymbols(u) then None else Some(BytesOf(u))
  }

  lemma {:induction false} SpaceIsDropped(a: string, c: char, b: string)
    requires c in {'\t', '\n', '\U{000C}', '\r', ' '}
    ensures WithoutSpace(a + [c] + b) == WithoutSpace(a + b)
  {
    if a == "" {
      assert (a + [c] + b)[1..] == a + b && (a + [c] + b)[0] == c;
      assert "" + WithoutSpace(a + b) == WithoutSpace(a + b);
    } else {
      assert (a + [c] + b)[1..] == a[1..] + [c] + b && (a + b)[1..] == a[1..] + b;
      SpaceIsDropped(a[1..], c, b);
    }
  }

  /** atob passes over white space wherever it stands. */
  lemma AtobSkipsSpace(a: string, c: char, b: string)
    requires c in {'\t', '\n', '\U{000C}', '\r', ' '}
    ensures Atob(a + [c] + b) == Atob(a + b)
  {
    SpaceIsDropped(a, c, b);
  }

  lemma Exact(n: Six)
    ensures ValueOf(Symbol(n)) == n
  {
  }

  lemma FirstByte(x: nat, y: nat)
    requires x < 256 && y < 16
    ensures x / 4 * 4 + (x % 4 * 16 + y) / 16 == x
  {
  }

  lemma SecondByte(x: nat, y: nat, z: nat)
    requires y < 256 && z < 4
    ensures (x % 4 * 16 + y / 16) % 16 * 16 + (y % 16 * 4 + z) / 4 == y
  {
  }

  lemma ThirdByte(y: nat, z: nat)
    requires z < 256
    ensures (y % 16 * 4 + z / 64) % 4 * 64 + z % 64 == z
  {
  }

  lemma SixesOfOne(x: byte)
    ensures var a := x as int; Sixes([x]) == [a / 4, a % 4 * 16]
  {
  }

  lemma SixesOfTwo(x: byte, y: byte)
    ensures var a, b := x as int, y as int; Sixes([x, y]) == [a / 4, a % 4 * 16 + b / 16, b % 16 * 4]
  {
  }

  lemma EightsOfTwo(w: Six, x: Six)
    ensures w * 4 + x / 16 < 256 && Eights([w, x]) == [(w * 4 + x / 16) as byte]
  {
  }

  lemma EightsOfThree(w: Six, x: Six, y: Six)
    ensures w * 4 + x / 16 < 256 && x % 16 * 16 + y / 4 < 256
    ensures Eights([w, x, y]) == [(w * 4 + x / 16) as byte, (x % 16 * 16 + y / 4) as byte]
  {
  }

  lemma OneIsRead(x: byte)
    ensures Eights(Sixes([x])) == [x]
  {
    var a := x as int;
    SixesOfOne(x);
    EightsOfTwo(a / 4, a % 4 * 16);
    FirstByte(a, 0);
  }

  lemma TwoAreRead(x: byte, y: byte)
    ensures Eights(Sixes([x, y])) == [x, y]
  {
    var a, b := x as int, y as int;
    SixesOfTwo(x, y);
    EightsOfThree(a / 4, a % 4 * 16 + b / 16, b % 16 * 4);
    FirstByte(a, b / 16);
    SecondByte(a, b, 0);
  }

  lemma SixesOfThree(x: byte, y: byte, z: byte, rest: bytes)
    ensures var a, b, c := x as int, y as int, z as int;
      Sixes([x, y, z] + rest) == [a / 4, a % 4 * 16 + b / 16, b % 16 * 4 + c / 64, c % 64] + Sixes(rest)
  {
    assert ([x, y, z] + rest)[3..] == rest;
  }

  lemma SymbolsAre(b: bytes, v: seq<Six>)
    requires Sixes(b) == v
    ensures |Symbols(b)| == |v| && forall k :: 0 <= k < |v| ==> Symbols(b)[k] == Symbol(v[k])
  {
  }

  lemma BitsOfThree(a: nat, b: nat, c: nat)
    requires a < 256 && b < 256 && c < 256
    ensures ((a / 4 * 64 + (a % 4 * 16 + b / 16)) * 64 + (b % 16 * 4 + c / 64)) * 64 + c % 64 == a * 65536 + b * 256 + c
  {
  }

  /** Three bytes are the four symbols of their 24 bits, highest first, in front of what the rest
      gives. */
  lemma ThreeBytesAre(a: byte, b: byte, c: byte, rest: bytes) returns (w: nat, x: nat, y: nat, z: nat)
    ensures w < 64 && x < 64 && y < 64 && z < 64
    ensures a as int * 65536 + b as int * 256 + c as int == ((w * 64 + x) * 64 + y) * 64 + z
    ensures Btoa([a, b, c] + rest) == [Symbol(w), Symbol(x), Symbol(y), Symbol(z)] + Btoa(rest)
  {
    var all := [a, b, c] + rest;
    SixesOfThree(a, b, c, rest);
    var v := Sixes(all);
    w, x, y, z := v[0], v[1], v[2], v[3];
    BitsOfThree(a as int, b as int, c as int);
    assert v[4..] == Sixes(rest);
    ThreeInFront(all, rest, v);
  }

  lemma SamePadding(n: nat)
    ensures Padding(n + 3) == Padding(n)
  {
  }

  lemma ThreeInFront(all: bytes, rest: bytes, v: seq<Six>)
    requires |all| == |rest| + 3 && Sixes(all) == v && |v| >= 4 && v[4..] == Sixes(rest)
    ensures Btoa(all) == [Symbol(v[0]), Symbol(v[1]), Symbol(v[2]), Symbol(v[3])] + Btoa(rest)
  {
    var first := [Symbol(v[0]), Symbol(v[1]), Symbol(v[2]), Symbol(v[3])];
    SymbolsAre(all, v);
    SymbolsAre(rest, v[4..]);
    assert Symbols(all)[..4] == first && Symbols(all)[4..] == Symbols(rest);
    SamePadding(|rest|);
    Regroup(first, Symbols(rest), Padding(|rest|));
    assert Symbols(all) == first + Symbols(rest);
  }

  /** One or two bytes at the end are filled up with zero bits and padded to four symbols. */
  lemma LastBytesAre(a: byte, b: byte) returns (u: nat, v: nat, w: nat, x: nat, y: nat)
    ensures u < 64 && v < 64 && w < 64 && x < 64 && y < 64
    ensures a as int * 16 == u * 64 + v && Btoa([a]) == [Symbol(u), Symbol(v), '=', '=']
    ensures (a as int * 256 + b as int) * 4 == (w * 64 + x) * 64 + y
    ensures Btoa([a, b]) == [Symbol(w), Symbol(x), Symbol(y), '=']
  {
    SixesOfOne(a);
    SixesOfTwo(a, b);
    var one, two := Sixes([a]), Sixes([a, b]);
    u, v, w, x, y := one[0], one[1], two[0], two[1], two[2];
    SymbolsAre([a], one);
    SymbolsAre([a, b], two);
  }

  lemma EightsOfFour(w: Six, x: Six, y: Six, z: Six, rest: seq<Six>)
    ensures w * 4 + x / 16 < 256 && x % 16 * 16 + y / 4 < 256 && y % 4 * 64 + z < 256
    ensures Eights([w, x, y, z] + rest) ==
      [(w * 4 + x / 16) as byte, (x % 16 * 16 + y / 4) as byte, (y % 4 * 64 + z) as byte] + Eights(rest)
  {
    assert ([w, x, y, z] + rest)[4..] == rest;
  }

  lemma ThreeOfFour(x: byte, y: byte, z: byte, rest: bytes)
    ensures Eights(Sixes([x, y, z] + rest)) == [x, y, z] + Eights(Sixes(rest))
  {
    var a, b, c := x as int, y as int, z as int;
    SixesOfThree(x, y, z, rest);
    EightsOfFour(a / 4, a % 4 * 16 + b / 16, b % 16 * 4 + c / 64, c % 64, Sixes(rest));
    FirstByte(a, b / 16);
    SecondByte(a, b, c / 64);
    ThirdByte(b, c);
  }

  lemma {:induction false} EightsOfSixes(b: bytes)
    ensures Eights(Sixes(b)) == b
  {
    if |b| == 0 {
    } else if |b| == 1 {
      OneIsRead(b[0]);
      assert b == [b[0]];
    } else if |b| == 2 {
      TwoAreRead(b[0], b[1]);
      assert b == [b[0], b[1]];
    } else {
      EightsOfSixes(b[3..]);
      ThreeOfFour(b[0], b[1], b[2], b[3..]);
      assert b == [b[0], b[1], b[2]] + b[3..];
    }
  }

  lemma SymbolsAreRead(b: bytes)
    ensures BytesOf(Symbols(b)) == b
  {
    var s, sixes := Symbols(b), Sixes(b);
    forall k | 0 <= k < |s| ensures ValueOf(s[k]) == sixes[k] {
      Exact(sixes[k]);
    }
    assert ValuesOf(s) == sixes;
    EightsOfSixes(b);
  }

  lemma {:induction false} NoSpaceHere(s: string)
    requires forall k :: 0 <= k < |s| ==> !IsAsciiSpace(s[k])
    ensures WithoutSpace(s) == s
  {
    if s != "" {
      NoSpaceHere(s[1..]);
    }
  }

  lemma DropsOne(s: string)
    ensures DropPad(s + "=") == s && (s + "=") + "=" == s + "=="
  {
    assert (s + "=")[..|s|] == s;
  }

  lemma PadIsDropped(s: string, n: nat)
    requires AllSymbols(s) && |s| == SymbolCount(n)
    ensures |s + Padding(n)| % 4 == 0 && DropPad(DropPad(s + Padding(n))) == s
  {
    DropsOne(s);
    if n % 3 == 1 {
      DropsOne(s + "=");
    } else if n % 3 == 0 {
      assert s + "" == s;
    }
  }

  lemma PaddedIsRead(s: string, n: nat)
    requires AllSymbols(s) && |s| == SymbolCount(n)
    ensures Atob(s + Padding(n)) == Some(BytesOf(s))
  {
    NoSpaceHere(s + Padding(n));
    PadIsDropped(s, n);
  }

  /** What btoa writes atob reads back. */
  lemma BtoaIsRead(b: bytes)
    ensures Atob(Btoa(b)) == Some(b)
  {
    PaddedIsRead(Symbols(b), |b|);
    SymbolsAreRead(b);
  }

  /** The loops that copy decoded characters into a byte array. */
  method Filled(binary: bytes) returns (r: bytes)
    ensures r == binary
  {
    var out := new byte[|binary|];
    for i := 0 to |binary|
      invariant forall k :: 0 <= k < i ==> out[k] == binary[k]
    {
      out[i] := binary[i];
    }
    assert out[..] == binary;
    return out[..];
  }

  // ---------------------------------------------------------------------------
  // base64: wrapping

  /** The lines of a text cut every w characters. */
  function Cut(s: string, w: nat): seq<string>
    requires w > 0
    decreases |s|
  {
    if s == "" then [] else if |s| <= w then [s] else [s[..w]] + Cut(s[w..], w)
  }

  method Lines(s: string, w: nat) returns (lines: seq<string>)
    requires w > 0
    ensures lines == Cut(s, w)
  {
    lines := [];
    var i := 0;
    while i < |s|
      invariant i >= 0 && Cut(s, w) == lines + Cut(if i <= |s| then s[i..] else "", w)
      decreases |s| - i
    {
      if i + w < |s| {
        CutMore(s, i, w, lines);
      } else {
        CutLast(s, i, w, lines);
        assert i + w == |s| ==> s[i + w..] == "";
        assert s[i..|s|] == s[i..];
      }
      lines := lines + [s[i..if i + w <= |s| then i + w else |s|]];
      i := i + w;
    }
    assert lines + [] == lines;
  }

  method EncodeBase64(data: bytes, wrapWidth: nat) returns (r: string)
    ensures r == if wrapWidth == 0 then Btoa(data) else Join(Cut(Btoa(data), wrapWidth), '\n')
  {
    var base64 := Btoa(data);
    if wrapWidth == 0 {
      return base64;
    }
    var lines := Lines(base64, wrapWidth);
    return Join(lines, '\n');
  }

  lemma CutLast(s: string, i: nat, w: nat, lines: seq<string>)
    requires w > 0 && i < |s| <= i + w
    ensures lines + Cut(s[i..], w) == (lines + [s[i..]]) + Cut("", w)
  {
  }

  lemma CutMore(s: string, i: nat, w: nat, lines: seq<string>)
    requires w > 0 && i + w < |s|
    ensures lines + Cut(s[i..], w) == (lines + [s[i..i + w]]) + Cut(s[i + w..], w)
  {
    var rest := s[i..];
    assert rest[..w] == s[i..i + w] && rest[w..] == s[i + w..];
    assert Cut(rest, w) == [s[i..i + w]] + Cut(s[i + w..], w);
  }

  function Cleaned(s: string): string {
    if s == "" then "" else (if IsSpace(s[0]) then "" else [s[0]]) + Cleaned(s[1..])
  }

  /** None is the error "invalid input". */
  method DecodeBase64(data: string) returns (r: Option<bytes>)
    ensures r == Atob(Cleaned(data))
  {
    var decoded := Atob(Cleaned(data));
    if decoded.None? {
      return None;
    }
    var out := Filled(decoded.value);
    return Some(out);
  }

  lemma {:induction false} CleanedJoin(lines: seq<string>)
    requires forall k :: 0 <= k < |lines| ==> Cleaned(lines[k]) == lines[k]
    ensures Cleaned(Join(lines, '\n')) == Flat(lines)
  {
    if |lines| > 1 {
      CleanedJoin(lines[1..]);
      CleanedPlus(lines[0] + ['\n'], Join(lines[1..], '\n'));
      CleanedPlus(lines[0], ['\n']);
    } else if |lines| == 1 {
      assert lines[0] + "" == lines[0];
    }
  }

  lemma {:induction false} CleanedPlus(a: string, b: string)
    ensures Cleaned(a + b) == Cleaned(a) + Cleaned(b)
  {
    if a == "" {
      assert a + b == b;
    } else {
      assert (a + b)[1..] == a[1..] + b;
      CleanedPlus(a[1..], b);
    }
  }

  function Flat(lines: seq<string>): string {
    if lines == [] then "" else lines[0] + Flat(lines[1..])
  }

  predicate SpaceFree(s: string) {
    forall k :: 0 <= k < |s| ==> !IsSpace(s[k])
  }

  lemma {:induction false} CleanAlready(s: string)
    requires SpaceFree(s)
    ensures Cleaned(s) == s
  {
    if s != "" {
      CleanAlready(s[1..]);
    }
  }

  lemma {:induction false} CutIsWhole(s: string, w: nat)
    requires w > 0
    ensures Flat(Cut(s, w)) == s
    ensures SpaceFree(s) ==> forall k :: 0 <= k < |Cut(s, w)| ==> SpaceFree(Cut(s, w)[k])
    decreases |s|
  {
    if s == "" {
    } else if |s| <= w {
      assert s + "" == s;
    } else {
      CutIsWhole(s[w..], w);
      assert s == s[..w] + s[w..];
    }
  }

  /** Decoding gives the data back, whatever the width. */
  lemma WrappedIsRead(data: bytes, w: nat)
    ensures Atob(Cleaned(if w == 0 then Btoa(data) else Join(Cut(Btoa(data), w), '\n'))) == Some(data)
  {
    var s := Btoa(data);
    assert SpaceFree(s);
    CleanAlready(s);
    if w > 0 {
      CutIsWhole(s, w);
      forall k | 0 <= k < |Cut(s, w)| ensures Cleaned(Cut(s, w)[k]) == Cut(s, w)[k] {
        CleanAlready(Cut(s, w)[k]);
      }
      CleanedJoin(Cut(s, w));
    }
    BtoaIsRead(data);
  }

  /** Every line but the last has the width, and the last has at least one character. */
  lemma {:induction false} LinesAreFull(s: string, w: nat)
    requires w > 0
    ensures forall k :: 0 <= k < |Cut(s, w)| ==>
              if k < |Cut(s, w)| - 1 then |Cut(s, w)[k]| == w else 1 <= |Cut(s, w)[k]| <= w
    decreases |s|
  {
    if |s| > w {
      LinesAreFull(s[w..], w);
    }
  }

  // ---------------------------------------------------------------------------
  // The alphabet for URLs

  function Replaced(s: string, from: char, to: char): (r: string)
    ensures |r| == |s| && forall k :: 0 <= k < |s| ==> r[k] == if s[k] == from then to else s[k]
  {
    seq(|s|, k requires 0 <= k < |s| => if s[k] == from then to else s[k])
  }

  /** .replace(/=+$/, '') */
  function StripEquals(s: string): string {
    if s != "" && s[|s| - 1] == '=' then StripEquals(s[..|s| - 1]) else s
  }

  function UrlEncoded(data: bytes): string {
    StripEquals(Replaced(Replaced(Btoa(data), '+', '-'), '/', '_'))
  }

  function UrlDecoded(s: string): Option<bytes> {
    var base64 := Replaced(Replaced(s, '-', '+'), '_', '/');
    Atob(base64 + if |s| % 4 == 2 then "==" else if |s| % 4 == 3 then "=" else "")
  }

  method UrlDecode(s: string) returns (r: Option<bytes>)
    ensures r == UrlDecoded(s)
  {
    var base64 := Replaced(Replaced(s, '-', '+'), '_', '/');
    var padding := |base64| % 4;
    assert base64 + "" == base64;
    if padding == 2 {
      base64 := base64 + "==";
    } else if padding == 3 {
      base64 := base64 + "=";
    }
    var binary := Atob(base64);
    if binary.None? {
      return None;
    }
    var out := Filled(binary.value);
    return Some(out);
  }

  predicate IsUrlSymbol(c: char) {
    'A' <= c <= 'Z' || 'a' <= c <= 'z' || '0' <= c <= '9' || c == '-' || c == '_'
  }

  predicate IsUrlText(s: string) {
    forall k :: 0 <= k < |s| ==> IsUrlSymbol(s[k])
  }

  function UrlSymbols(data: bytes): (s: string)
    ensures |s| == |Symbols(data)| && forall k :: 0 <= k < |s| ==> IsUrlSymbol(s[k])
  {
    Replaced(Replaced(Symbols(data), '+', '-'), '/', '_')
  }

  lemma StripsOne(s: string)
    ensures StripEquals(s + "=") == StripEquals(s) && (s + "=") + "=" == s + "=="
  {
    assert (s + "=")[..|s|] == s;
  }

  lemma StripsPadding(s: string, n: nat)
    requires forall k :: 0 <= k < |s| ==> s[k] != '='
    ensures StripEquals(s + Padding(n)) == s
  {
    StripsOne(s);
    StripsOne(s + "=");
    assert s + "" == s;
  }

  /** The encoding is the symbols of the bytes in the alphabet of section 5 of RFC 4648, with
      no padding. */
  lemma UrlEncodedIs(data: bytes)
    ensures UrlEncoded(data) == UrlSymbols(data)
  {
    var padded := Replaced(Replaced(Btoa(data), '+', '-'), '/', '_');
    assert padded == UrlSymbols(data) + Padding(|data|);
    StripsPadding(UrlSymbols(data), |data|);
  }

  lemma PaddingByFour(n: nat)
    ensures Padding(n) == if SymbolCount(n) % 4 == 2 then "==" else if SymbolCount(n) % 4 == 3 then "=" else ""
  {
  }

  /** What is encoded for URLs is decoded again. */
  lemma UrlRoundTrip(data: bytes)
    ensures UrlDecoded(UrlEncoded(data)) == Some(data)
  {
    UrlEncodedIs(data);
    var s := UrlSymbols(data);
    assert Replaced(Replaced(s, '-', '+'), '_', '/') == Symbols(data);
    PaddingByFour(|data|);
    BtoaIsRead(data);
  }

  // ---------------------------------------------------------------------------
  // Other encodings of the same bytes

  /** Are the bits that do not belong to a byte zero? */
  predicate NoSpareBits(v: seq<Six>) {
    && (|v| % 4 == 2 ==> v[|v| - 1] % 16 == 0)
    && (|v| % 4 == 3 ==> v[|v| - 1] % 4 == 0)
  }

  lemma FourAreRead(w: nat, x: nat, y: nat, z: nat)
    requires w < 64 && x < 64 && y < 64 && z < 64
    ensures var a, b, c := w * 4 + x / 16, x % 16 * 16 + y / 4, y % 4 * 64 + z;
      && a < 256 && b < 256 && c < 256
      && a / 4 == w && a % 4 * 16 + b / 16 == x && b % 16 * 4 + c / 64 == y && c % 64 == z
  {
    var a, b, c := w * 4 + x / 16, x % 16 * 16 + y / 4, y % 4 * 64 + z;
    assert a / 4 == w && a % 4 == x / 16;
    assert b / 16 == x % 16 && b % 16 == y / 4;
    assert c / 64 == y % 4 && c % 64 == z;
  }

  lemma LastSixes(w: nat, x: nat, y: nat)
    requires w < 64 && x < 64 && y < 64
    ensures var a, b := w * 4 + x / 16, x % 16 * 16 + y / 4;
      && a < 256 && b < 256 && a / 4 == w && a % 4 * 16 + b / 16 == x
      && (a % 4 * 16 == x <==> x % 16 == 0)
      && (b % 16 * 4 == y <==> y % 4 == 0)
  {
    FourAreRead(w, x, y, 0);
  }

  lemma FourOfThree(w: Six, x: Six, y: Six, z: Six, rest: seq<Six>)
    ensures Sixes(Eights([w, x, y, z] + rest)) == [w, x, y, z] + Sixes(Eights(rest))
  {
    FourAreRead(w, x, y, z);
    EightsOfFour(w, x, y, z, rest);
    SixesOfThree((w * 4 + x / 16) as byte, (x % 16 * 16 + y / 4) as byte, (y % 4 * 64 + z) as byte, Eights(rest));
  }

  lemma TwoComeBackIff(w: Six, x: Six)
    ensures Sixes(Eights([w, x])) == [w, x] <==> x % 16 == 0
  {
    LastSixes(w, x, 0);
    EightsOfTwo(w, x);
    SixesOfOne((w * 4 + x / 16) as byte);
  }

  lemma ThreeComeBackIff(w: Six, x: Six, y: Six)
    ensures Sixes(Eights([w, x, y])) == [w, x, y] <==> y % 4 == 0
  {
    LastSixes(w, x, y);
    EightsOfThree(w, x, y);
    SixesOfTwo((w * 4 + x / 16) as byte, (x % 16 * 16 + y / 4) as byte);
  }

  lemma SpareBitsInTail(v: seq<Six>)
    requires |v| >= 4
    ensures NoSpareBits(v[4..]) == NoSpareBits(v)
  {
  }

  /** Symbols that are decoded and encoded again come back exactly when no spare bit is set. */
  lemma {:induction false} SixesOfEights(v: seq<Six>)
    requires |v| % 4 != 1
    ensures Sixes(Eights(v)) == v <==> NoSpareBits(v)
  {
    if |v| == 0 {
    } else if |v| == 2 {
      TwoComeBackIff(v[0], v[1]);
      assert v == [v[0], v[1]];
    } else if |v| == 3 {
      ThreeComeBackIff(v[0], v[1], v[2]);
      assert v == [v[0], v[1], v[2]];
    } else {
      SixesOfEights(v[4..]);
      SpareBitsInTail(v);
      var four := [v[0], v[1], v[2], v[3]];
      assert v == four + v[4..];
      FourOfThree(v[0], v[1], v[2], v[3], v[4..]);
      SameTail(four, Sixes(Eights(v[4..])), v[4..]);
    }
  }

  lemma SameTail(a: seq<Six>, b: seq<Six>, c: seq<Six>)
    ensures a + b == a + c <==> b == c
  {
    assert (a + b)[|a|..] == b && (a + c)[|a|..] == c;
  }

  /** A string in the alphabet for URLs, back in the plain one. */
  function Plain(s: string): (r: string)
    requires IsUrlText(s)
    ensures |r| == |s| && AllSymbols(r)
  {
    PlainSymbols(s);
    Replaced(Replaced(s, '-', '+'), '_', '/')
  }

  lemma PlainSymbols(s: string)
    requires IsUrlText(s)
    ensures AllSymbols(Replaced(Replaced(s, '-', '+'), '_', '/'))
  {
    var t := Replaced(s, '-', '+');
    forall k | 0 <= k < |s| ensures IsSymbol(Replaced(t, '_', '/')[k]) {
      assert IsUrlSymbol(s[k]);
      assert t[k] == if s[k] == '-' then '+' else s[k];
    }
  }

  lemma {:induction false} CountBack(v: seq<Six>)
    requires |v| % 4 != 1
    ensures SymbolCount(|Eights(v)|) == |v|
  {
    if |v| >= 4 {
      CountBack(v[4..]);
      assert |Eights(v)| == 3 + |Eights(v[4..])|;
    }
  }

  lemma UrlDecodedIs(s: string)
    requires IsUrlText(s)
    requires |s| % 4 != 1
    ensures UrlDecoded(s) == Some(Eights(ValuesOf(Plain(s))))
  {
    var v := ValuesOf(Plain(s));
    CountBack(v);
    PaddingByFour(|Eights(v)|);
    PaddedIsRead(Plain(s), |Eights(v)|);
  }

  lemma SameSymbolsIff(s: string, b: bytes)
    requires IsUrlText(s)
    ensures UrlSymbols(b) == s <==> Sixes(b) == ValuesOf(Plain(s))
  {
    var v := ValuesOf(Plain(s));
    if Sixes(b) == v {
      forall k | 0 <= k < |s| ensures UrlSymbols(b)[k] == s[k] {
        assert Symbol(v[k]) == Plain(s)[k];
      }
    }
    if UrlSymbols(b) == s {
      forall k | 0 <= k < |s| ensures Sixes(b)[k] == v[k] {
        Exact(Sixes(b)[k]);
        assert Symbols(b)[k] == Plain(s)[k];
      }
    }
  }

  lemma UrlTextComesBackIff(s: string)
    requires IsUrlText(s) && |s| % 4 != 1
    ensures UrlDecoded(s).Some?
    ensures UrlEncoded(UrlDecoded(s).value) == s <==> NoSpareBits(ValuesOf(Plain(s)))
  {
    var v := ValuesOf(Plain(s));
    UrlDecodedIs(s);
    UrlEncodedIs(Eights(v));
    SameSymbolsIff(s, Eights(v));
    SixesOfEights(v);
  }

  /** Of all strings, also those with other characters that decode, the ones that decode to bytes
      whose encoding is the string again are those of the alphabet for URLs, of a possible length
      and with no spare bit set.  Any other that decodes stands for bytes another one encodes. */
  lemma UrlComesBackIff(s: string)
    ensures UrlDecoded(s).Some? && UrlEncoded(UrlDecoded(s).value) == s
      <==> IsUrlText(s) && |s| % 4 != 1 && NoSpareBits(ValuesOf(Plain(s)))
  {
    if UrlDecoded(s).Some? && UrlEncoded(UrlDecoded(s).value) == s {
      UrlEncodedIs(UrlDecoded(s).value);
      UrlTextComesBackIff(s);
    }
    if IsUrlText(s) && |s| % 4 != 1 {
      UrlTextComesBackIff(s);
    }
  }
}
