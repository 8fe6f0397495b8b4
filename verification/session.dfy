/**
 * Signed session tokens (src/lib/session.ts): `base64url(JSON(payload))`
 * followed by "." and the HMAC-SHA-256 signature of that encoded part, and
 * the Set-Cookie headers that carry or clear the token.
 *
 * HMAC-SHA-256 under the server secret (RFC 2104), base64url without padding
 * (section 5 of RFC 4648) and JSON (RFC 8259) are the fields of a `Codec`;
 * the laws the proofs rely on are collected in `Lawful`.
 */
module Session {
  import opened Wrappers
  import opened Text
  import opened Seqs

  const CookieName: string := "msu_life_session"
  /** SESSION_TTL_SECONDS when unset: 30 days. */
  const DefaultSessionTtl: int := 2592000

  datatype Payload = Payload(uid: string, email: string, role: string, exp: int)

  /** What the caller of `signSession` supplies: the payload without `exp`. */
  datatype Claims = Claims(uid: string, email: string, role: string)

  datatype Codec = Codec(
    sign: string -> string,          // HMAC-SHA-256 digest, rendered in base64url
    base64url: string -> string,     // Buffer.from(s).toString("base64url")
    unbase64url: string -> string,   // Buffer.from(s, "base64url").toString()
    stringify: Payload -> string,    // JSON.stringify
    parse: string -> Option<Payload>) // JSON.parse; None when it throws

  /** The base64url alphabet of section 5 of RFC 4648 (Node omits the padding). */
  predicate IsBase64UrlChar(c: char) {
    IsUpper(c) || IsLower(c) || IsDigit(c) || c == '-' || c == '_'
  }

  predicate Base64UrlText(s: string) {
    forall i :: 0 <= i < |s| ==> IsBase64UrlChar(s[i])
  }

  /** The properties of the encodings the token format depends on. */
  ghost predicate Lawful(k: Codec) {
    && (forall s :: k.unbase64url(k.base64url(s)) == s)
    && (forall s :: Base64UrlText(k.base64url(s)))
    && (forall s :: Base64UrlText(k.sign(s)))
    && (forall p :: k.parse(k.stringify(p)) == Some(p))
  }

  /** `Math.floor(Date.now() / 1000)`; Dafny's division by a positive constant is the floor. */
  function EpochSeconds(nowMs: int): (s: int)
    ensures s * 1000 <= nowMs < s * 1000 + 1000
  {
    nowMs / 1000
  }

  /** The payload `signSession` signs: the claims with `exp` = now in whole seconds + TTL. */
  function SessionPayload(c: Claims, ttl: int, nowMs: int): (p: Payload)
    ensures Claims(p.uid, p.email, p.role) == c
    ensures (p.exp - ttl) * 1000 <= nowMs < (p.exp - ttl) * 1000 + 1000
  {
    Payload(c.uid, c.email, c.role, EpochSeconds(nowMs) + ttl)
  }

  function Encode(k: Codec, p: Payload): string {
    k.base64url(k.stringify(p))
  }

  /** `signSession`. */
  function SignSession(k: Codec, ttl: int, nowMs: int, c: Claims): string {
    var encoded := Encode(k, SessionPayload(c, ttl, nowMs));
    encoded + "." + k.sign(encoded)
  }

  /**
   * `verifySession`: exactly two '.'-parts, a signature equal to the one
   * recomputed over the first part, a payload that decodes and parses, and
   * an `exp` not before the current second. Anything else is `None`.
   */
  function VerifySession(k: Codec, nowMs: int, token: string): (r: Option<Payload>)
    ensures |Split(token, '.')| != 2 ==> r.None?
    ensures r.Some? ==> Split(token, '.')[1] == k.sign(Split(token, '.')[0])
    ensures r.Some? ==> k.parse(k.unbase64url(Split(token, '.')[0])) == r
    ensures r.Some? ==> r.value.exp >= EpochSeconds(nowMs)
  {
    var parts := Split(token, '.');
    if |parts| != 2 then None
    else
      var encoded := parts[0];
      var signature := parts[1];
      if signature != k.sign(encoded) then None
      else
        match k.parse(k.unbase64url(encoded))
        case None => None
        case Some(p) => if p.exp < EpochSeconds(nowMs) then None else Some(p)
  }

  /** A signed token splits into exactly its encoded payload and that part's signature. */
  lemma TokenParts(k: Codec, ttl: int, nowMs: int, c: Claims)
    requires Lawful(k)
    ensures var encoded := Encode(k, SessionPayload(c, ttl, nowMs));
      Split(SignSession(k, ttl, nowMs, c), '.') == [encoded, k.sign(encoded)]
  {
    var encoded := Encode(k, SessionPayload(c, ttl, nowMs));
    var sig := k.sign(encoded);
    assert Base64UrlText(encoded) && Base64UrlText(sig);
    SplitByConcat(encoded, '.', sig, {'.'});
    SplitByNone(encoded, {'.'});
    SplitByNone(sig, {'.'});
    assert SignSession(k, ttl, nowMs, c) == encoded + ['.'] + sig;
  }

  /**
   * Round trip: a token verified at any second up to and including its
   * `exp` yields the signed payload, so the claims come back unchanged;
   * after `exp` it is rejected.
   */
  lemma SignVerifyRoundTrip(k: Codec, ttl: int, issuedMs: int, nowMs: int, c: Claims)
    requires Lawful(k)
    ensures var p := SessionPayload(c, ttl, issuedMs);
      VerifySession(k, nowMs, SignSession(k, ttl, issuedMs, c))
        == if EpochSeconds(nowMs) <= p.exp then Some(p) else None
  {
    TokenParts(k, ttl, issuedMs, c);
    var p := SessionPayload(c, ttl, issuedMs);
    assert k.unbase64url(Encode(k, p)) == k.stringify(p);
  }

  /**
   * A token whose signature part is not the signature of its payload part
   * is rejected, whatever the payload part is: tampering with the payload
   * while keeping a genuine signature fails unless the two payload parts
   * have the same signature. A forged part that itself holds a '.' makes
   * more than two parts and fails the shape check.
   */
  lemma ForgedSignatureRejected(k: Codec, nowMs: int, encoded: string, signature: string)
    requires signature != k.sign(encoded)
    ensures VerifySession(k, nowMs, encoded + "." + signature) == None
  {
    SplitByConcat(encoded, '.', signature, {'.'});
    assert encoded + "." + signature == encoded + ['.'] + signature;
    if |Split(signature, '.')| == 1 {
      SplitSingle(signature, '.');
      if |Split(encoded, '.')| == 1 {
        SplitSingle(encoded, '.');
      }
    }
  }

  /** The attributes after the name=value pair, in the order the source writes them. */
  function CookieAttributes(maxAge: int, production: bool): seq<string> {
    ["HttpOnly", "SameSite=Lax", "Path=/", "Max-Age=" + IntToString(maxAge)]
      + (if production then ["Secure"] else [])
  }

  function AttributeSuffix(attrs: seq<string>): string {
    if attrs == [] then "" else "; " + attrs[0] + AttributeSuffix(attrs[1..])
  }

  /** `sessionCookieHeader` (a Set-Cookie value, section 4.1 of RFC 6265). */
  function SessionCookieHeader(value: string, ttl: int, production: bool): string {
    CookieName + "=" + value + AttributeSuffix(CookieAttributes(ttl, production))
  }

  /** `clearSessionCookieHeader`: an empty value that expires at once. */
  function ClearSessionCookieHeader(production: bool): string {
    CookieName + "=" + AttributeSuffix(CookieAttributes(0, production))
  }

  function Spaced(a: string): string { " " + a }

  /** A Set-Cookie value read back: the name=value pair and the trimmed attributes. */
  function ParseSetCookie(header: string): (string, seq<string>) {
    var parts := Split(header, ';');
    (parts[0], Map(parts[1..], Trim))
  }

  lemma {:induction false} SplitAttributes(pair: string, attrs: seq<string>)
    requires NoneOf(pair, {';'})
    requires forall i :: 0 <= i < |attrs| ==> NoneOf(attrs[i], {';'})
    ensures Split(pair + AttributeSuffix(attrs), ';') == [pair] + Map(attrs, Spaced)
    decreases |attrs|
  {
    if attrs == [] {
      SplitByNone(pair, {';'});
      assert pair + AttributeSuffix(attrs) == pair;
    } else {
      var next := " " + attrs[0];
      SplitAttributes(next, attrs[1..]);
      assert pair + AttributeSuffix(attrs) == pair + [';'] + (next + AttributeSuffix(attrs[1..]));
      SplitByConcat(pair, ';', next + AttributeSuffix(attrs[1..]), {';'});
      SplitByNone(pair, {';'});
      assert Map(attrs, Spaced) == [next] + Map(attrs[1..], Spaced);
    }
  }

  /** An attribute that `Trim` gives back unchanged after the "; " separator's space. */
  predicate PlainAttribute(a: string) {
    a != [] && !IsSpace(a[0]) && !IsSpace(a[|a| - 1]) && NoneOf(a, {';'})
  }

  lemma CookieAttributesPlain(maxAge: int, production: bool)
    ensures forall i :: 0 <= i < |CookieAttributes(maxAge, production)| ==>
      PlainAttribute(CookieAttributes(maxAge, production)[i])
  {
    var m := IntToString(maxAge);
    var digits := if maxAge < 0 then NatToString(-maxAge) else NatToString(maxAge);
    assert m[|m| - 1] == digits[|digits| - 1];
    assert NoneOf(m, {';'});
    var age := "Max-Age=" + m;
    assert age[|age| - 1] == m[|m| - 1];
    assert PlainAttribute(age);
  }

  lemma TrimSpaced(a: string)
    requires PlainAttribute(a)
    ensures Trim(Spaced(a)) == a
  {
    assert Spaced(a)[1..] == a;
    assert TrimStart(Spaced(a)) == a;
  }

  lemma {:induction false} TrimSpacedAll(attrs: seq<string>)
    requires forall i :: 0 <= i < |attrs| ==> PlainAttribute(attrs[i])
    ensures Map(Map(attrs, Spaced), Trim) == attrs
  {
    forall i | 0 <= i < |attrs| ensures Map(Map(attrs, Spaced), Trim)[i] == attrs[i] {
      TrimSpaced(attrs[i]);
    }
  }

  /**
   * Reading the session header back gives the cookie's name=value pair and
   * exactly the attributes HttpOnly, SameSite=Lax, Path=/, Max-Age=<ttl>,
   * followed by Secure in production only.
   */
  lemma SessionCookieHeaderParses(value: string, ttl: int, production: bool)
    requires NoneOf(value, {';'})
    ensures ParseSetCookie(SessionCookieHeader(value, ttl, production))
      == (CookieName + "=" + value, CookieAttributes(ttl, production))
  {
    var pair := CookieName + "=" + value;
    var attrs := CookieAttributes(ttl, production);
    CookieAttributesPlain(ttl, production);
    assert NoneOf(CookieName + "=", {';'});
    SplitAttributes(pair, attrs);
    TrimSpacedAll(attrs);
    var parts := Split(SessionCookieHeader(value, ttl, production), ';');
    assert parts[1..] == Map(attrs, Spaced);
  }

  /** The clearing header carries an empty value and Max-Age=0. */
  lemma ClearCookieHeaderParses(production: bool)
    ensures ParseSetCookie(ClearSessionCookieHeader(production))
      == (CookieName + "=", CookieAttributes(0, production))
  {
    SessionCookieHeaderParses("", 0, production);
    assert CookieName + "=" + "" == CookieName + "=";
    assert ClearSessionCookieHeader(production) == SessionCookieHeader("", 0, production);
  }
}
