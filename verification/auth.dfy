/**
 * Reading the session from a request's Cookie header (src/lib/auth.ts):
 * the first ';'-segment whose trimmed text starts with "msu_life_session="
 * supplies the token, everything after its first '=' and trimmed.
 */
module Auth {
  import opened Wrappers
  import opened Text
  import opened Seqs
  import opened Session

  /** The segment test of `getSessionFromRequest`'s `find`, for the cookie `name`. */
  predicate NamesCookie(segment: string, name: string) {
    StartsWith(Trim(segment), name + "=")
  }

  function SegmentTest(name: string): string -> bool {
    (segment: string) => NamesCookie(segment, name)
  }

  /** `match.split("=").slice(1).join("=").trim()`. */
  function CookieValue(segment: string): string {
    Trim(Join(Split(segment, '=')[1..], "="))
  }

  /** The value is everything after the first '=' (later '=' characters are kept), trimmed. */
  lemma ValueAfterFirstEquals(name: string, rest: string)
    requires NoneOf(name, {'='})
    ensures CookieValue(name + "=" + rest) == Trim(rest)
  {
    SplitByConcat(name, '=', rest, {'='});
    SplitByNone(name, {'='});
    assert name + "=" + rest == name + ['='] + rest;
    assert Split(name + "=" + rest, '=')[1..] == Split(rest, '=');
    JoinSplit(rest, '=');
  }

  /**
   * `getSessionFromRequest`: a missing or empty header, no session segment
   * or an empty value give `None`; otherwise the value is verified.
   */
  function GetSessionFromRequest(k: Codec, nowMs: int, header: Option<string>): (r: Option<Payload>)
    ensures header.None? || header == Some("") ==> r.None?
    ensures header.Some? && FindFirst(Split(header.value, ';'), SegmentTest(CookieName)).None? ==> r.None?
    ensures r.Some? ==> r.value.exp >= EpochSeconds(nowMs)
  {
    if header.None? || header.value == "" then None
    else
      var segments := Split(header.value, ';');
      match FindFirst(segments, SegmentTest(CookieName))
      case None => None
      case Some(i) =>
        var value := CookieValue(segments[i]);
        if value == "" then None else VerifySession(k, nowMs, value)
  }

  /** One name=value pair as a browser sends it (section 5.4 of RFC 6265). */
  datatype Cookie = Cookie(name: string, value: string)

  function RenderCookie(c: Cookie): string { c.name + "=" + c.value }

  /** The Cookie header for a non-empty list of pairs: joined by "; ". */
  function CookieHeader(cs: seq<Cookie>): string
    requires |cs| >= 1
  {
    RenderCookie(cs[0]) + AttributeSuffix(Map(cs[1..], RenderCookie))
  }

  /** A pair a browser can send: a token name, and a value without ';' or surrounding space. */
  predicate WellFormedCookie(c: Cookie) {
    && c.name != [] && !IsSpace(c.name[0]) && NoneOf(c.name, {';', '='})
    && NoneOf(c.value, {';'}) && (c.value == [] || (!IsSpace(c.value[0]) && !IsSpace(c.value[|c.value| - 1])))
  }

  function NameTest(name: string): Cookie -> bool {
    (c: Cookie) => c.name == name
  }

  /** The text of a pair starts with `name=` exactly when the pair is called `name`. */
  lemma PairPrefix(n: string, v: string, name: string)
    requires NoneOf(n, {'='}) && NoneOf(name, {'='})
    ensures StartsWith(n + "=" + v, name + "=") <==> n == name
  {
    var r := n + "=" + v;
    var p := name + "=";
    if StartsWith(r, p) {
      assert forall i :: 0 <= i < |p| ==> r[i] == p[i];
      assert r[|n|] == '=' && p[|name|] == '=';
      assert |n| == |name|;
      assert n == r[..|n|] == p[..|name|] == name;
    }
    if n == name {
      assert r[..|p|] == p;
    }
  }

  /** A pair's text, with or without the space after "; ", trims to itself. */
  lemma PairTrim(n: string, v: string)
    requires n != [] && !IsSpace(n[0])
    requires v == [] || !IsSpace(v[|v| - 1])
    ensures Trim(n + "=" + v) == n + "=" + v
    ensures Trim(Spaced(n + "=" + v)) == n + "=" + v
  {
    var r := n + "=" + v;
    assert r[0] == n[0];
    assert r[|r| - 1] == if v == [] then '=' else v[|v| - 1];
    TrimTrimmed(r);
    assert Spaced(r)[1..] == r;
    assert TrimStart(Spaced(r)) == r;
  }

  /** The value a pair's segment yields is the pair's value. */
  lemma PairValue(n: string, v: string)
    requires NoneOf(n, {'='})
    requires v == [] || (!IsSpace(v[0]) && !IsSpace(v[|v| - 1]))
    ensures CookieValue(n + "=" + v) == v
  {
    ValueAfterFirstEquals(n, v);
    TrimTrimmed(v);
  }

  lemma SpacedPairValue(n: string, v: string)
    requires NoneOf(n, {'='})
    requires v == [] || (!IsSpace(v[0]) && !IsSpace(v[|v| - 1]))
    ensures CookieValue(Spaced(n + "=" + v)) == v
  {
    var m := " " + n;
    assert NoneOf(m, {'='});
    assert Spaced(n + "=" + v) == m + "=" + v;
    PairValue(m, v);
  }

  /** A segment carrying one pair tests and yields as that pair. */
  lemma SegmentOfPair(segment: string, n: string, v: string, name: string)
    requires n != [] && !IsSpace(n[0]) && NoneOf(n, {'='}) && NoneOf(name, {'='})
    requires v == [] || (!IsSpace(v[0]) && !IsSpace(v[|v| - 1]))
    requires segment == n + "=" + v || segment == Spaced(n + "=" + v)
    ensures NamesCookie(segment, name) <==> n == name
    ensures CookieValue(segment) == v
  {
    PairTrim(n, v);
    PairPrefix(n, v, name);
    if segment == n + "=" + v {
      PairValue(n, v);
    } else {
      SpacedPairValue(n, v);
    }
  }

  /** Splitting a rendered header at ';' gives one segment per pair, the later ones after a space. */
  lemma HeaderSplit(cs: seq<Cookie>)
    requires |cs| >= 1
    requires forall i :: 0 <= i < |cs| ==> WellFormedCookie(cs[i])
    ensures |Split(CookieHeader(cs), ';')| == |cs|
    ensures Split(CookieHeader(cs), ';')[0] == RenderCookie(cs[0])
    ensures forall i :: 1 <= i < |cs| ==> Split(CookieHeader(cs), ';')[i] == Spaced(RenderCookie(cs[i]))
  {
    var rendered := Map(cs[1..], RenderCookie);
    forall i | 0 <= i < |rendered| ensures NoneOf(rendered[i], {';'}) {
      assert rendered[i] == RenderCookie(cs[i + 1]);
    }
    assert NoneOf(RenderCookie(cs[0]), {';'});
    SplitAttributes(RenderCookie(cs[0]), rendered);
  }

  /** The segments of a rendered header test and yield as the pairs they came from. */
  lemma HeaderSegments(cs: seq<Cookie>, name: string)
    requires |cs| >= 1 && NoneOf(name, {'='})
    requires forall i :: 0 <= i < |cs| ==> WellFormedCookie(cs[i])
    ensures |Split(CookieHeader(cs), ';')| == |cs|
    ensures forall i :: 0 <= i < |cs| ==>
      (SegmentTest(name)(Split(CookieHeader(cs), ';')[i]) <==> NameTest(name)(cs[i]))
    ensures forall i :: 0 <= i < |cs| ==> CookieValue(Split(CookieHeader(cs), ';')[i]) == cs[i].value
  {
    HeaderSplit(cs);
    var segments := Split(CookieHeader(cs), ';');
    forall i | 0 <= i < |cs|
      ensures (SegmentTest(name)(segments[i]) <==> NameTest(name)(cs[i]))
      ensures CookieValue(segments[i]) == cs[i].value
    {
      var c := cs[i];
      assert NoneOf(c.name, {'='});
      SegmentOfPair(segments[i], c.name, c.value, name);
    }
  }

  /** Two searches whose tests agree position by position find the same position. */
  lemma {:induction false} FindFirstAgrees<T, U>(s: seq<T>, p: T -> bool, t: seq<U>, q: U -> bool)
    requires |s| == |t|
    requires forall i :: 0 <= i < |s| ==> (p(s[i]) <==> q(t[i]))
    ensures FindFirst(s, p) == FindFirst(t, q)
  {
    var a := FindFirst(s, p);
    var b := FindFirst(t, q);
    assert a.Some? <==> b.Some?;
  }

  lemma CookieNamePlain()
    ensures NoneOf(CookieName, {'='})
  {
  }

  /**
   * For a Cookie header a browser builds from well-formed pairs, the session
   * read is the verification of the value of the first pair named
   * "msu_life_session"; with no such pair, or an empty value, there is none.
   */
  lemma CookieHeaderLookup(k: Codec, nowMs: int, cs: seq<Cookie>)
    requires |cs| >= 1
    requires forall i :: 0 <= i < |cs| ==> WellFormedCookie(cs[i])
    ensures GetSessionFromRequest(k, nowMs, Some(CookieHeader(cs)))
      == match FindFirst(cs, NameTest(CookieName))
         case None => None
         case Some(i) => if cs[i].value == "" then None else VerifySession(k, nowMs, cs[i].value)
  {
    CookieNamePlain();
    HeaderSegments(cs, CookieName);
    FindFirstAgrees(Split(CookieHeader(cs), ';'), SegmentTest(CookieName), cs, NameTest(CookieName));
    assert CookieHeader(cs) != "" by {
      assert |RenderCookie(cs[0])| >= 1;
    }
  }

  /**
   * The cookie the login route sets comes back, alone in the header, as the
   * payload it was signed with while unexpired, and as nothing afterwards.
   */
  lemma SignedCookieRoundTrip(k: Codec, ttl: int, issuedMs: int, nowMs: int, c: Claims)
    requires Lawful(k)
    ensures var token := SignSession(k, ttl, issuedMs, c);
      var p := SessionPayload(c, ttl, issuedMs);
      GetSessionFromRequest(k, nowMs, Some(CookieName + "=" + token))
        == if EpochSeconds(nowMs) <= p.exp then Some(p) else None
  {
    var p := SessionPayload(c, ttl, issuedMs);
    var encoded := Encode(k, p);
    var sig := k.sign(encoded);
    var token := SignSession(k, ttl, issuedMs, c);
    assert Base64UrlText(encoded) && Base64UrlText(sig);
    assert token == encoded + "." + sig;
    assert forall i :: 0 <= i < |token| ==> IsBase64UrlChar(token[i]) || token[i] == '.';
    var cookie := Cookie(CookieName, token);
    assert WellFormedCookie(cookie);
    assert CookieHeader([cookie]) == CookieName + "=" + token;
    CookieHeaderLookup(k, nowMs, [cookie]);
    SignVerifyRoundTrip(k, ttl, issuedMs, nowMs, c);
  }
}
