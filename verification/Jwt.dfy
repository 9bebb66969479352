/** JSON web tokens, from src/auth/jwt.ts. */
module Jwt {
  // JSON, UTF-8 and HMAC-SHA256 are functions of which only inverse laws are used.

  import opened Base64
  import opened Bytes
  import opened Options
  import opened Text

  /** Claims; sub and sid are None when they are not strings. */
  datatype Payload = Payload(sub: Option<string>, sid: Option<string>, iat: int, exp: Option<int>, scope: seq<string>)

  /** A header, as far as it is looked at. */
  datatype Header = Header(alg: string, typ: string)

  datatype Platform = Platform(
    stringify: Payload -> string,
    parse: string -> Option<Payload>,
    parseHeader: string -> Option<Header>,
    utf8: string -> bytes,
    text: bytes -> string,
    mac: (bytes, bytes) -> bytes)
  {
    /** What JSON.stringify writes JSON.parse reads, and it survives UTF-8. */
    ghost predicate Laws() {
      && (forall p :: parse(stringify(p)) == Some(p))
      && (forall p :: text(utf8(stringify(p))) == stringify(p))
    }
  }

  const ENCODED_HEADER := "eyJhbGciOiJIUzI1NiIsInR5cCI6IkpXVCJ9"

  function EncodedPayload(f: Platform, p: Payload): string {
    UrlEncoded(f.utf8(f.stringify(p)))
  }

  function Signature(f: Platform, key: bytes, signingInput: string): bytes {
    f.mac(key, f.utf8(signingInput))
  }

  function SignJWT(f: Platform, p: Payload, key: bytes): string {
    var signingInput := ENCODED_HEADER + "." + EncodedPayload(f, p);
    signingInput + "." + UrlEncoded(Signature(f, key, signingInput))
  }

  /** Is the header the constant one, or does it decode to one that says the same? */
  predicate HeaderOk(f: Platform, encoded: string) {
    encoded == ENCODED_HEADER ||
    var decoded := UrlDecoded(encoded);
    decoded.Some? && f.parseHeader(f.text(decoded.value)) == Some(Header("HS256", "JWT"))
  }

  function PayloadOf(f: Platform, encoded: string): Option<Payload> {
    var decoded := UrlDecoded(encoded);
    if decoded.None? then None else f.parse(f.text(decoded.value))
  }

  /** The time in milliseconds; the claim is in seconds. */
  predicate Expired(p: Payload, now: int) {
    p.exp.Some? && p.exp.value <= now / 1000
  }

  function VerifyJWT(f: Platform, token: string, key: bytes, now: int): Option<Payload> {
    var parts := Split(token, '.');
    if |parts| != 3 then None
    else if !HeaderOk(f, parts[0]) then None
    else
      var signature := UrlDecoded(parts[2]);
      if signature != Some(Signature(f, key, parts[0] + "." + parts[1])) then None
      else
        var p := PayloadOf(f, parts[1]);
        if p.None? || Expired(p.value, now) || p.value.sub.None? || p.value.sid.None? then None else p
  }

  lemma NoDots(data: bytes)
    ensures '.' !in UrlEncoded(data)
  {
    UrlEncodedIs(data);
    forall c | c in UrlEncoded(data) ensures c != '.' {
      assert IsUrlSymbol(c);
    }
  }

  /** A signed token has exactly three parts between dots (section 7.1 of RFC 7515): the
      header, the payload and the signature. */
  lemma SignedHasThreeParts(f: Platform, p: Payload, key: bytes)
    ensures Split(SignJWT(f, p, key), '.') ==
      [ENCODED_HEADER, EncodedPayload(f, p),
       UrlEncoded(Signature(f, key, ENCODED_HEADER + "." + EncodedPayload(f, p)))]
  {
    var body := EncodedPayload(f, p);
    var tail := UrlEncoded(Signature(f, key, ENCODED_HEADER + "." + body));
    NoDots(f.utf8(f.stringify(p)));
    NoDots(Signature(f, key, ENCODED_HEADER + "." + body));
    ThreeParts(ENCODED_HEADER, body, tail);
  }

  lemma ThreeParts(a: string, b: string, c: string)
    requires '.' !in a && '.' !in b && '.' !in c
    ensures Split(a + "." + b + "." + c, '.') == [a, b, c]
  {
    var parts := [a, b, c];
    assert parts[1..] == [b, c] && [b, c][1..] == [c];
    assert Join([b, c], '.') == b + "." + c;
    assert Join(parts, '.') == a + "." + (b + "." + c);
    assert a + "." + (b + "." + c) == a + "." + b + "." + c;
    SplitOfJoin(parts, '.');
  }

  /** A signed token is accepted, and gives its payload back, exactly when the key signs it the
      same, it names a subject and a session, and it has not expired. */
  lemma SignedIsVerifiedIff(f: Platform, p: Payload, key: bytes, key': bytes, now: int)
    requires f.Laws()
    ensures var input := ENCODED_HEADER + "." + EncodedPayload(f, p);
      VerifyJWT(f, SignJWT(f, p, key), key', now) ==
        if Signature(f, key', input) == Signature(f, key, input) && !Expired(p, now) && p.sub.Some? && p.sid.Some?
        then Some(p) else None
  {
    SignedHasThreeParts(f, p, key);
    UrlRoundTrip(f.utf8(f.stringify(p)));
    UrlRoundTrip(Signature(f, key, ENCODED_HEADER + "." + EncodedPayload(f, p)));
  }

  /** Section 4.1.4 of RFC 7519: not on or after the time the claim gives, to the millisecond. */
  lemma ExpiredIff(p: Payload, now: int)
    ensures Expired(p, now) <==> p.exp.Some? && p.exp.value * 1000 <= now
  {
  }

  /** An accepted token carries the key's signature over what stands before it. */
  lemma AcceptedIsSigned(f: Platform, token: string, key: bytes, now: int)
    requires VerifyJWT(f, token, key, now).Some?
    ensures exists input, signature ::
              && token == input + "." + signature
              && UrlDecoded(signature) == Some(Signature(f, key, input))
    ensures !Expired(VerifyJWT(f, token, key, now).value, now)
  {
    var parts := Split(token, '.');
    JoinOfSplit(token, '.');
    var a, b, c := parts[0], parts[1], parts[2];
    assert parts == [a, b, c] && parts[1..] == [b, c] && [b, c][1..] == [c];
    assert Join([b, c], '.') == b + "." + c;
    assert token == a + "." + (b + "." + c);
    assert token == (a + "." + b) + "." + c;
  }
}
