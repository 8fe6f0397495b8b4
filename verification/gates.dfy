/**
 * The server-side gates built on the session: `requireAuth`
 * (src/lib/requireAuth.ts), `optionalAuth` (src/lib/optionalAuth.ts), the
 * `/api/auth/me` route (src/app/api/auth/me/route.ts) and `requireAdmin`
 * with its ADMIN_EMAILS allow-list (src/lib/requireAdmin.ts).
 */
module Gates {
  import opened Wrappers
  import opened Text
  import opened Seqs
  import opened Session
  import opened Auth
  import opened Users
  import opened JsonBody
  import DeriveNames

  /** The `{ id, email, role }` the gates return. */
  datatype AuthUser = AuthUser(id: string, email: string, role: string)

  /** `requireAuth` either redirects to /login or returns the user. */
  datatype AuthOutcome = RedirectToLogin | Authenticated(user: AuthUser)

  function RowUser(u: User): AuthUser {
    AuthUser(u.id, u.email, u.role)
  }

  /**
   * `requireAuth`, given the value of the "msu_life_session" cookie (if the
   * store has one) and the user table. The returned role is the row's, not
   * the token's.
   */
  function RequireAuth(k: Codec, nowMs: int, cookie: Option<string>, users: seq<User>): (r: AuthOutcome)
    ensures cookie.None? || cookie == Some("") ==> r.RedirectToLogin?
    ensures cookie.Some? && VerifySession(k, nowMs, cookie.value).None? ==> r.RedirectToLogin?
    ensures r.Authenticated? ==>
      var session := VerifySession(k, nowMs, cookie.value).value;
      && Usable(FindById(users, session.uid))
      && r.user == RowUser(FindById(users, session.uid).value)
      && r.user.id == session.uid
    ensures (cookie.Some? && cookie.value != "" && VerifySession(k, nowMs, cookie.value).Some?
      && Usable(FindById(users, VerifySession(k, nowMs, cookie.value).value.uid))) ==> r.Authenticated?
  {
    if cookie.None? || cookie.value == "" then RedirectToLogin
    else
      match VerifySession(k, nowMs, cookie.value)
      case None => RedirectToLogin
      case Some(session) =>
        var user := FindById(users, session.uid);
        if !Usable(user) then RedirectToLogin
        else Authenticated(RowUser(user.value))
  }

  /** `optionalAuth`: the same checks, answering `None` where `requireAuth` redirects. */
  function OptionalAuth(k: Codec, nowMs: int, cookie: Option<string>, users: seq<User>): (r: Option<AuthUser>)
    ensures cookie.None? || cookie == Some("") ==> r.None?
    ensures cookie.Some? && VerifySession(k, nowMs, cookie.value).None? ==> r.None?
    ensures r.Some? ==> r.value.id == VerifySession(k, nowMs, cookie.value).value.uid
  {
    if cookie.None? || cookie.value == "" then None
    else
      var session := VerifySession(k, nowMs, cookie.value);
      if session.None? then None
      else
        var user := FindById(users, session.value.uid);
        if user.None? || !user.value.isActive || user.value.isBanned then None
        else Some(AuthUser(user.value.id, user.value.email, user.value.role))
  }

  /** `optionalAuth` returns a user exactly when `requireAuth` returns that user instead of redirecting. */
  lemma OptionalAgreesWithRequire(k: Codec, nowMs: int, cookie: Option<string>, users: seq<User>)
    ensures OptionalAuth(k, nowMs, cookie, users).Some? <==> RequireAuth(k, nowMs, cookie, users).Authenticated?
    ensures OptionalAuth(k, nowMs, cookie, users).Some? ==>
      OptionalAuth(k, nowMs, cookie, users).value == RequireAuth(k, nowMs, cookie, users).user
  {
    if cookie.Some? && cookie.value != "" {
      var session := VerifySession(k, nowMs, cookie.value);
      if session.Some? {
        var user := FindById(users, session.value.uid);
        assert Usable(user) <==> !(user.None? || !user.value.isActive || user.value.isBanned);
      }
    }
  }

  function UserJson(u: AuthUser): Json {
    JObj(map["id" := JStr(u.id), "email" := JStr(u.email), "role" := JStr(u.role)])
  }

  /** GET /api/auth/me once the session has been read from the Cookie header. */
  function MeFor(session: Option<Payload>, users: seq<User>, production: bool): (r: HttpResponse)
    ensures session.None? ==> r.status == 401 && r.setCookie.None?
    ensures r.status == 403 <==> session.Some? && !Usable(FindById(users, session.value.uid))
    ensures r.status == 403 ==> r.setCookie == Some(ClearSessionCookieHeader(production))
    ensures r.status == 200 ==> r.setCookie.None? && TruthyField(r.body, "ok")
    ensures r.status == 200 || r.status == 401 || r.status == 403
  {
    match session
    case None => HttpResponse(401, ErrorBody("Not authenticated"), None)
    case Some(s) =>
      var user := FindById(users, s.uid);
      if !Usable(user) then
        HttpResponse(403, ErrorBody("Account unavailable"), Some(ClearSessionCookieHeader(production)))
      else
        HttpResponse(200, JObj(map["ok" := JBool(true), "user" := UserJson(RowUser(user.value))]), None)
  }

  /** GET /api/auth/me for a request with the given Cookie header. */
  function Me(k: Codec, nowMs: int, header: Option<string>, users: seq<User>, production: bool): (r: HttpResponse)
    ensures GetSessionFromRequest(k, nowMs, header).None? ==> r.status == 401 && r.setCookie.None?
    ensures r.status == 403 <==>
      GetSessionFromRequest(k, nowMs, header).Some?
      && !Usable(FindById(users, GetSessionFromRequest(k, nowMs, header).value.uid))
    ensures r.status == 403 ==> r.setCookie == Some(ClearSessionCookieHeader(production))
    ensures r.status == 200 ==> r.setCookie.None? && TruthyField(r.body, "ok")
    ensures r.status == 200 || r.status == 401 || r.status == 403
  {
    MeFor(GetSessionFromRequest(k, nowMs, header), users, production)
  }

  /** The success body is `{ ok, user }` with the row's id, email and role, and has no top-level isAdmin. */
  lemma MeSuccessBody(k: Codec, nowMs: int, header: Option<string>, users: seq<User>, production: bool)
    ensures var r := Me(k, nowMs, header, users, production);
      r.status == 200 ==>
        var u := FindById(users, GetSessionFromRequest(k, nowMs, header).value.uid).value;
        r.body == JObj(map["ok" := JBool(true), "user" := UserJson(RowUser(u))])
    ensures !TruthyField(Me(k, nowMs, header, users, production).body, "isAdmin")
  {
    assert "isAdmin" != "ok" && "isAdmin" != "user" && "isAdmin" != "error";
  }

  function TrimLower(e: string): string { ToLower(Trim(e)) }

  /** ADMIN_EMAILS: the variable (empty when unset) split on ',', each entry trimmed and lowercased, empties dropped. */
  function AdminEmails(env: Option<string>): seq<string> {
    var raw := if env.Some? then env.value else "";
    Filter(Map(Split(raw, ','), TrimLower), DeriveNames.NonEmpty)
  }

  /** An address is on the list exactly when it is non-empty and some comma-separated entry normalises to it. */
  lemma AdminEmailsMembership(env: Option<string>, e: string)
    ensures var raw := if env.Some? then env.value else "";
      e in AdminEmails(env) <==>
        e != "" && exists i :: 0 <= i < |Split(raw, ',')| && TrimLower(Split(raw, ',')[i]) == e
  {
    var raw := if env.Some? then env.value else "";
    EntriesMembership(Split(raw, ','), e);
  }

  lemma EntriesMembership(parts: seq<string>, e: string)
    ensures e in Filter(Map(parts, TrimLower), DeriveNames.NonEmpty) <==>
      e != "" && exists i :: 0 <= i < |parts| && TrimLower(parts[i]) == e
  {
    var mapped := Map(parts, TrimLower);
    if e in Filter(mapped, DeriveNames.NonEmpty) {
      var j :| 0 <= j < |mapped| && mapped[j] == e;
      assert TrimLower(parts[j]) == e;
    }
    if e != "" && exists i :: 0 <= i < |parts| && TrimLower(parts[i]) == e {
      var i :| 0 <= i < |parts| && TrimLower(parts[i]) == e;
      assert mapped[i] == e && DeriveNames.NonEmpty(mapped[i]);
    }
  }

  /** An allow-list entry: non-empty, lowercase, and without white space at either end. */
  predicate NormalEntry(e: string) {
    e != "" && ToLower(e) == e && !IsSpace(e[0]) && !IsSpace(e[|e| - 1])
  }

  /** Every entry of the list is trimmed, lowercased and non-empty. */
  lemma AdminEmailsNormalized(env: Option<string>)
    ensures forall i :: 0 <= i < |AdminEmails(env)| ==> NormalEntry(AdminEmails(env)[i])
  {
    var raw := if env.Some? then env.value else "";
    var mapped := Map(Split(raw, ','), TrimLower);
    forall j | 0 <= j < |mapped| && DeriveNames.NonEmpty(mapped[j])
      ensures NormalEntry(mapped[j])
    {
      NormalizedEntry(Split(raw, ',')[j]);
    }
    FilterKeeps(mapped, DeriveNames.NonEmpty, NormalEntry);
  }

  /** One entry after trimming and lowercasing: lowercase, and without white space at either end. */
  lemma NormalizedEntry(part: string)
    ensures TrimLower(part) == [] || NormalEntry(TrimLower(part))
  {
    var t := Trim(part);
    LowerIdempotent(t);
    LowerKeepsEdges(t);
  }

  lemma LowerIdempotent(s: string)
    ensures ToLower(ToLower(s)) == ToLower(s)
  {
  }

  lemma LowerKeepsEdges(s: string)
    requires s == [] || (!IsSpace(s[0]) && !IsSpace(s[|s| - 1]))
    ensures ToLower(s) == [] || (!IsSpace(ToLower(s)[0]) && !IsSpace(ToLower(s)[|s| - 1]))
  {
  }

  datatype AdminUser = AdminUser(id: string, email: string)

  /** `requireAdmin`: a redirect from `requireAuth`, or a decision with the user only when allowed. */
  datatype AdminOutcome = AdminRedirect | AdminDecision(allowed: bool, user: Option<AdminUser>)

  /**
   * `requireAdmin`: `requireAuth` first, then the row again; allowed iff the
   * row is usable and either flagged isAdmin or its lowercased email is on
   * the allow-list.
   */
  function RequireAdmin(k: Codec, nowMs: int, cookie: Option<string>, users: seq<User>, adminEnv: Option<string>): (r: AdminOutcome)
    ensures RequireAuth(k, nowMs, cookie, users).RedirectToLogin? <==> r.AdminRedirect?
    ensures r.AdminDecision? ==> (r.allowed <==> r.user.Some?)
    ensures r.AdminDecision? ==>
      var row := FindById(users, RequireAuth(k, nowMs, cookie, users).user.id);
      (r.allowed <==> Usable(row) && IsAdminRow(row.value, AdminEmails(adminEnv)))
      && (r.allowed ==> r.user == Some(AdminUser(row.value.id, row.value.email)))
  {
    match RequireAuth(k, nowMs, cookie, users)
    case RedirectToLogin => AdminRedirect
    case Authenticated(user) =>
      var row := FindById(users, user.id);
      if !Usable(row) then AdminDecision(false, None)
      else
        var isAllowed := IsAdminRow(row.value, AdminEmails(adminEnv));
        if !isAllowed then AdminDecision(false, None)
        else AdminDecision(true, Some(AdminUser(row.value.id, row.value.email)))
  }

  /** An administrator by the rule of `requireAdmin`: the row's flag, or its lowercased email on the allow-list. */
  predicate IsAdminRow(u: User, adminEmails: seq<string>) {
    u.isAdmin || ToLower(u.email) in adminEmails
  }

  /**
   * `/api/auth/me` as the bottom bar expects it: the same responses, with the
   * 200 body also carrying a top-level `isAdmin` decided as `requireAdmin`
   * decides, given the parsed ADMIN_EMAILS list.
   */
  function MeWithAdminFlag(k: Codec, nowMs: int, header: Option<string>, users: seq<User>, production: bool,
                           adminEmails: seq<string>): (r: HttpResponse)
    ensures var me := Me(k, nowMs, header, users, production);
      r.status == me.status && r.setCookie == me.setCookie && (r.status != 200 ==> r == me)
    ensures r.status == 200 ==>
      GetSessionFromRequest(k, nowMs, header).Some?
      && Usable(FindById(users, GetSessionFromRequest(k, nowMs, header).value.uid))
    ensures r.status == 200 ==>
      var row := FindById(users, GetSessionFromRequest(k, nowMs, header).value.uid).value;
      && TruthyField(r.body, "ok")
      && (TruthyField(r.body, "isAdmin") <==> IsAdminRow(row, adminEmails))
  {
    MeForWithAdminFlag(GetSessionFromRequest(k, nowMs, header), users, production, adminEmails)
  }

  /** `MeFor` with the 200 body extended by the `isAdmin` flag of the session's row. */
  function MeForWithAdminFlag(session: Option<Payload>, users: seq<User>, production: bool,
                              adminEmails: seq<string>): (r: HttpResponse)
    ensures var me := MeFor(session, users, production);
      r.status == me.status && r.setCookie == me.setCookie && (r.status != 200 ==> r == me)
    ensures r.status == 200 ==> session.Some? && Usable(FindById(users, session.value.uid))
    ensures r.status == 200 ==>
      && TruthyField(r.body, "ok")
      && (TruthyField(r.body, "isAdmin") <==> IsAdminRow(FindById(users, session.value.uid).value, adminEmails))
  {
    var me := MeFor(session, users, production);
    if me.status != 200 then me
    else
      var flag := IsAdminRow(FindById(users, session.value.uid).value, adminEmails);
      assert "isAdmin" != "ok";
      HttpResponse(200, JObj(me.body.fields["isAdmin" := JBool(flag)]), None)
  }
}
