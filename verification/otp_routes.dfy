/**
 * The two login routes over the one-time-code table and the user table:
 * POST /api/auth/request-otp (src/app/api/auth/request-otp/route.ts) and
 * POST /api/auth/verify-otp (src/app/api/auth/verify-otp/route.ts).
 * The tables live in an `AuthStore` whose methods are the route handlers;
 * the clock, the random draw and the fresh row id are parameters.
 */
module OtpRoutes {
  import opened Wrappers
  import opened Text
  import opened Otp
  import opened Session
  import opened Auth
  import opened Users
  import opened JsonBody
  import opened RateLimit
  import opened Gates

  const DefaultAllowedDomain: string := "ndus.edu"
  /** OTP_TTL_SECONDS when unset. */
  const DefaultOtpTtl: int := 600
  const DemoCode: string := "000000"

  /** A row of the `emailOtp` table; `id` is the row's position. */
  datatype OtpRecord = OtpRecord(id: nat, email: string, codeHash: string, createdAt: int, expiresAt: int, usedAt: Option<int>)

  /** The environment the routes read, and the digest functions they call. */
  datatype Config = Config(
    allowedDomainEnv: Option<string>,  // ALLOWED_EMAIL_DOMAIN
    otpTtl: int,                       // OTP_TTL_SECONDS, parsed
    pepper: string,                    // OTP_PEPPER ("" when unset)
    sha256: string -> string,          // hex SHA-256
    codec: Codec,                      // session signing and encodings
    sessionTtl: int,                   // SESSION_TTL_SECONDS, parsed
    production: bool,                  // NODE_ENV == "production"
    debugReturnCode: Option<string>,   // OTP_DEBUG_RETURN_CODE
    demoBypass: Option<string>)        // OTP_DEMO_BYPASS

  /** `(ALLOWED_EMAIL_DOMAIN ?? "ndus.edu").toLowerCase()`. */
  function AllowedDomain(cfg: Config): string {
    ToLower(if cfg.allowedDomainEnv.Some? then cfg.allowedDomainEnv.value else DefaultAllowedDomain)
  }

  /** `email.split("@")[1]`, which is `undefined` (here `None`) without an '@'. */
  function DomainPart(email: string): Option<string> {
    var parts := Split(email, '@');
    if |parts| >= 2 then Some(parts[1]) else None
  }

  predicate DomainAllowed(cfg: Config, email: string) {
    DomainPart(email) == Some(AllowedDomain(cfg))
  }

  /** For an address with one '@', the domain part is the text after it. */
  lemma DomainOfAddress(local: string, domain: string)
    requires NoneOf(local, {'@'}) && NoneOf(domain, {'@'})
    ensures DomainPart(local + "@" + domain) == Some(domain)
  {
    assert local + "@" + domain == local + ['@'] + domain;
    SplitByConcat(local, '@', domain, {'@'});
    SplitByNone(local, {'@'});
    SplitByNone(domain, {'@'});
  }

  /** The code is echoed outside production, or when OTP_DEBUG_RETURN_CODE is exactly "true". */
  predicate DebugEnabled(cfg: Config) {
    !cfg.production || cfg.debugReturnCode == Some("true")
  }

  predicate DemoBypassEnabled(cfg: Config) {
    cfg.demoBypass == Some("true")
  }

  function Stamps(otps: seq<OtpRecord>): (r: seq<Stamp>)
    ensures |r| == |otps|
    ensures forall i :: 0 <= i < |otps| ==> r[i] == Stamp(otps[i].email, otps[i].createdAt)
  {
    seq(|otps|, i requires 0 <= i < |otps| => Stamp(otps[i].email, otps[i].createdAt))
  }

  lemma StampsAppend(otps: seq<OtpRecord>, r: OtpRecord)
    ensures Stamps(otps + [r]) == Stamps(otps) + [Stamp(r.email, r.createdAt)]
  {
  }

  /** The row `emailOtp.create` adds for a freshly drawn code. */
  function NewRecord(id: nat, cfg: Config, email: string, code: string, nowMs: int): (r: OtpRecord)
    ensures r.codeHash == HashOtp(cfg.sha256, cfg.pepper, email, code)
    ensures r.expiresAt - r.createdAt == cfg.otpTtl * 1000 && r.createdAt == nowMs
    ensures r.usedAt.None? && r.id == id && r.email == email
  {
    OtpRecord(id, email, HashOtp(cfg.sha256, cfg.pepper, email, code), nowMs, nowMs + cfg.otpTtl * 1000, None)
  }

  /** The 200 body of the request route. */
  function IssuedBody(cfg: Config, code: string): Json {
    if DebugEnabled(cfg) then
      JObj(map["ok" := JBool(true), "debug" := JObj(map["code" := JStr(code), "expiresInSeconds" := JNum(cfg.otpTtl)])])
    else JObj(map["ok" := JBool(true)])
  }

  /** The body carries the code (and its lifetime) exactly when debugging is enabled; otherwise it is `{ ok: true }`. */
  lemma IssuedBodyDebug(cfg: Config, code: string)
    ensures TruthyField(IssuedBody(cfg, code), "debug") <==> DebugEnabled(cfg)
    ensures DebugEnabled(cfg) ==>
      IssuedBody(cfg, code).fields["debug"] == JObj(map["code" := JStr(code), "expiresInSeconds" := JNum(cfg.otpTtl)])
    ensures !DebugEnabled(cfg) ==> IssuedBody(cfg, code) == JObj(map["ok" := JBool(true)])
  {
    assert "debug" != "ok";
  }

  /** The JSON body of the request route after `request.json()` and `requestOtpSchema`. */
  datatype OtpRequest =
    | OtpRequestNotJson
    | OtpRequestBody(email: string, emailValid: bool)  // emailValid: zod's string().email()

  /** The JSON body of the verify route after `request.json()` and its schema. */
  datatype VerifyRequest =
    | VerifyRequestNotJson
    | VerifyRequestBody(email: string, code: string, valid: bool)

  /** The query of the verify route: this address and hash, unused, not yet expired. */
  predicate Eligible(r: OtpRecord, email: string, codeHash: string, nowMs: int) {
    r.email == email && r.codeHash == codeHash && r.usedAt.None? && r.expiresAt > nowMs
  }

  /** Row `i` is an eligible row with the latest creation time (`orderBy: { createdAt: "desc" }`). */
  predicate Newest(otps: seq<OtpRecord>, i: nat, email: string, codeHash: string, nowMs: int) {
    && i < |otps| && Eligible(otps[i], email, codeHash, nowMs)
    && forall j :: 0 <= j < |otps| && Eligible(otps[j], email, codeHash, nowMs) ==> otps[j].createdAt <= otps[i].createdAt
  }

  /** `emailOtp.findFirst(...)`; among rows created at the same instant, the later one. */
  function FindNewest(otps: seq<OtpRecord>, email: string, codeHash: string, nowMs: int): (r: Option<nat>)
    ensures r.Some? ==> Newest(otps, r.value, email, codeHash, nowMs)
    ensures r.None? ==> forall j :: 0 <= j < |otps| ==> !Eligible(otps[j], email, codeHash, nowMs)
  {
    if otps == [] then None
    else
      var n := |otps| - 1;
      var earlier := FindNewest(otps[..n], email, codeHash, nowMs);
      assert forall j :: 0 <= j < n ==> otps[..n][j] == otps[j];
      if Eligible(otps[n], email, codeHash, nowMs) && (earlier.None? || otps[earlier.value].createdAt <= otps[n].createdAt) then Some(n)
      else earlier
  }

  /** A consumed row is never found again: the same code cannot log in twice through the stored row. */
  lemma ConsumedNeverFound(otps: seq<OtpRecord>, i: nat, email: string, codeHash: string, laterMs: int)
    requires i < |otps| && otps[i].usedAt.Some?
    ensures FindNewest(otps, email, codeHash, laterMs) != Some(i)
  {
  }

  /** The successful login response: the row's `{ id, email, role }` and a cookie with its signed session. */
  function LoginResponse(cfg: Config, nowMs: int, u: User): HttpResponse {
    var token := SignSession(cfg.codec, cfg.sessionTtl, nowMs, Claims(u.id, u.email, u.role));
    HttpResponse(200, JObj(map["ok" := JBool(true), "user" := UserJson(RowUser(u))]),
                 Some(SessionCookieHeader(token, cfg.sessionTtl, cfg.production)))
  }

  /**
   * The cookie a login sets carries the persisted row: a browser that
   * stores its name=value pair and sends it back before expiry is read as
   * the row's id, email and role.
   */
  lemma LoginCookieIdentifiesUser(cfg: Config, nowMs: int, laterMs: int, u: User)
    requires Lawful(cfg.codec)
    requires EpochSeconds(laterMs) <= EpochSeconds(nowMs) + cfg.sessionTtl
    ensures var pair := ParseSetCookie(LoginResponse(cfg, nowMs, u).setCookie.value).0;
      var s := GetSessionFromRequest(cfg.codec, laterMs, Some(pair));
      s.Some? && s.value.uid == u.id && s.value.email == u.email && s.value.role == u.role
  {
    var c := Claims(u.id, u.email, u.role);
    var token := SignSession(cfg.codec, cfg.sessionTtl, nowMs, c);
    var encoded := Encode(cfg.codec, SessionPayload(c, cfg.sessionTtl, nowMs));
    assert token == encoded + "." + cfg.codec.sign(encoded);
    assert Base64UrlText(encoded) && Base64UrlText(cfg.codec.sign(encoded));
    assert NoneOf(token, {';'});
    SessionCookieHeaderParses(token, cfg.sessionTtl, cfg.production);
    SignedCookieRoundTrip(cfg.codec, cfg.sessionTtl, nowMs, laterMs, c);
  }

  /** Appending a row that passed the rate limit keeps every stored code admitted and ids equal to positions. */
  lemma AppendKeepsAdmitted(otps: seq<OtpRecord>, row: OtpRecord)
    requires forall i :: 0 <= i < |otps| ==> otps[i].id == i
    requires Admitted(Stamps(otps))
    requires row.id == |otps|
    requires CountSince(Stamps(otps), row.email, row.createdAt - RateLimitWindowMs) < RateLimitMax
    ensures forall i :: 0 <= i < |otps + [row]| ==> (otps + [row])[i].id == i
    ensures Admitted(Stamps(otps + [row]))
  {
    AdmitAppend(Stamps(otps), Stamp(row.email, row.createdAt));
    StampsAppend(otps, row);
  }

  class AuthStore {
    var otps: seq<OtpRecord>
    var users: seq<User>
    const cfg: Config

    /** Row ids are positions, every code passed the rate limit when issued, and user keys are unique. */
    ghost predicate Valid()
      reads this
    {
      && (forall i :: 0 <= i < |otps| ==> otps[i].id == i)
      && Admitted(Stamps(otps))
      && UniqueKeys(users)
    }

    constructor(cfg: Config, users: seq<User>)
      requires UniqueKeys(users)
      ensures Valid()
      ensures this.cfg == cfg && otps == [] && this.users == users
    {
      this.cfg := cfg;
      this.users := users;
      otps := [];
    }

    /** POST /api/auth/request-otp with the current time and the value `randomInt` drew. */
    method RequestOtp(req: OtpRequest, nowMs: int, drawn: nat) returns (resp: HttpResponse)
      requires Valid() && drawn < CodeSpace
      modifies this
      ensures Valid() && users == old(users)
      ensures req.OtpRequestNotJson? ==> resp == HttpResponse(400, ErrorBody("Invalid JSON"), None) && otps == old(otps)
      ensures req.OtpRequestBody? && !req.emailValid ==>
        resp == HttpResponse(400, ErrorBody("Invalid email"), None) && otps == old(otps)
      ensures req.OtpRequestBody? && req.emailValid ==>
        var email := ToLower(req.email);
        if !DomainAllowed(cfg, email) then
          resp == HttpResponse(403, ErrorBody("Email domain not allowed"), None) && otps == old(otps)
        else if CountSince(Stamps(old(otps)), email, nowMs - RateLimitWindowMs) >= RateLimitMax then
          resp == HttpResponse(429, ErrorBody("Too many requests"), None) && otps == old(otps)
        else
          && otps == old(otps) + [NewRecord(|old(otps)|, cfg, email, GenerateOtp(drawn), nowMs)]
          && resp == HttpResponse(200, IssuedBody(cfg, GenerateOtp(drawn)), None)
    {
      if req.OtpRequestNotJson? {
        return HttpResponse(400, ErrorBody("Invalid JSON"), None);
      }
      if !req.emailValid {
        return HttpResponse(400, ErrorBody("Invalid email"), None);
      }
      var email := ToLower(req.email);
      if !DomainAllowed(cfg, email) {
        return HttpResponse(403, ErrorBody("Email domain not allowed"), None);
      }
      var recentCount := CountSince(Stamps(otps), email, nowMs - RateLimitWindowMs);
      if recentCount >= RateLimitMax {
        return HttpResponse(429, ErrorBody("Too many requests"), None);
      }
      var otp := GenerateOtp(drawn);
      var row := NewRecord(|otps|, cfg, email, otp, nowMs);
      AppendKeepsAdmitted(otps, row);
      otps := otps + [row];
      resp := HttpResponse(200, IssuedBody(cfg, otp), None);
    }

    /** The guarded `updateMany({ where: { id, usedAt: null }, data: { usedAt: now } })`. */
    method ConsumeOtp(id: nat, nowMs: int) returns (count: nat)
      requires Valid()
      modifies this
      ensures Valid() && users == old(users)
      ensures count == 1 <==> id < |old(otps)| && old(otps)[id].usedAt.None?
      ensures count == 1 ==> otps == old(otps)[id := old(otps)[id].(usedAt := Some(nowMs))]
      ensures count != 1 ==> count == 0 && otps == old(otps)
    {
      if id < |otps| && otps[id].usedAt.None? {
        var updated := otps[id := otps[id].(usedAt := Some(nowMs))];
        assert Stamps(updated) == Stamps(otps);
        otps := updated;
        count := 1;
      } else {
        count := 0;
      }
    }

    /** The user upsert keyed by email, creating a student row with `freshId` when none exists. */
    method UpsertUser(email: string, freshId: string) returns (u: User)
      requires Valid() && FindById(users, freshId).None?
      modifies this
      ensures Valid() && otps == old(otps)
      ensures (users, u) == UpsertByEmail(old(users), email, freshId)
      ensures FindByEmail(users, email) == Some(u)
    {
      UpsertKeepsKeys(users, email, freshId);
      var r := UpsertByEmail(users, email, freshId);
      users := r.0;
      u := r.1;
    }

    /**
     * POST /api/auth/verify-otp with the current time and the id the
     * database would give a new user row.
     */
    method VerifyOtp(req: VerifyRequest, nowMs: int, freshId: string) returns (resp: HttpResponse)
      requires Valid() && FindById(users, freshId).None?
      modifies this
      ensures Valid()
      ensures |otps| == |old(otps)|
      ensures forall i :: 0 <= i < |otps| && old(otps)[i].usedAt.Some? ==> otps[i] == old(otps)[i]
      ensures req.VerifyRequestNotJson? ==>
        resp == HttpResponse(400, ErrorBody("Invalid JSON"), None) && otps == old(otps) && users == old(users)
      ensures req.VerifyRequestBody? && !req.valid ==>
        resp == HttpResponse(400, ErrorBody("Invalid input"), None) && otps == old(otps) && users == old(users)
      ensures req.VerifyRequestBody? && req.valid && !DomainAllowed(cfg, req.email) ==>
        resp == HttpResponse(403, ErrorBody("Email domain not allowed"), None) && otps == old(otps) && users == old(users)
      ensures req.VerifyRequestBody? && req.valid && DomainAllowed(cfg, req.email)
              && DemoBypassEnabled(cfg) && req.code == DemoCode ==>
        var up := UpsertByEmail(old(users), req.email, freshId);
        otps == old(otps) && users == up.0 && resp == LoginResponse(cfg, nowMs, up.1)
      ensures req.VerifyRequestBody? && req.valid && DomainAllowed(cfg, req.email)
              && !(DemoBypassEnabled(cfg) && req.code == DemoCode) ==>
        var codeHash := HashOtp(cfg.sha256, cfg.pepper, req.email, req.code);
        match FindNewest(old(otps), req.email, codeHash, nowMs)
        case None =>
          resp == HttpResponse(401, ErrorBody("Invalid or expired code"), None)
          && otps == old(otps) && users == old(users)
        case Some(i) =>
          var up := UpsertByEmail(old(users), req.email, freshId);
          && Newest(old(otps), i, req.email, codeHash, nowMs)
          && otps == old(otps)[i := old(otps)[i].(usedAt := Some(nowMs))]
          && users == up.0 && resp == LoginResponse(cfg, nowMs, up.1)
    {
      if req.VerifyRequestNotJson? {
        return HttpResponse(400, ErrorBody("Invalid JSON"), None);
      }
      if !req.valid {
        return HttpResponse(400, ErrorBody("Invalid input"), None);
      }
      var email := req.email;
      if !DomainAllowed(cfg, email) {
        return HttpResponse(403, ErrorBody("Email domain not allowed"), None);
      }
      if DemoBypassEnabled(cfg) && req.code == DemoCode {
        var user := UpsertUser(email, freshId);
        return LoginResponse(cfg, nowMs, user);
      }
      var codeHash := HashOtp(cfg.sha256, cfg.pepper, email, req.code);
      var found := FindNewest(otps, email, codeHash, nowMs);
      if found.None? {
        return HttpResponse(401, ErrorBody("Invalid or expired code"), None);
      }
      var count := ConsumeOtp(found.value, nowMs);
      if count != 0 {
        var user := UpsertUser(email, freshId);
        resp := LoginResponse(cfg, nowMs, user);
      } else {
        resp := HttpResponse(401, ErrorBody("Invalid or expired code"), None);
      }
    }
  }
}
