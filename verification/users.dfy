/**
 * The rows of the `user` table the auth routes and gates read, and the
 * create-if-absent upsert keyed by email that both login paths of
 * src/app/api/auth/verify-otp/route.ts perform.
 */
module Users {
  import opened Wrappers
  import opened DeriveNames

  datatype User = User(
    id: string, email: string, role: string,
    isActive: bool, isBanned: bool, isAdmin: bool,
    firstName: Option<string>, lastName: Option<string>)

  /** The gate every auth helper applies to a row: present, active and not banned. */
  predicate Usable(u: Option<User>) {
    u.Some? && u.value.isActive && !u.value.isBanned
  }

  /** `findUnique({ where: { id } })`. */
  function FindById(users: seq<User>, id: string): (r: Option<User>)
    ensures r.Some? ==> r.value in users && r.value.id == id
    ensures r.None? ==> forall i :: 0 <= i < |users| ==> users[i].id != id
  {
    if users == [] then None
    else if users[0].id == id then Some(users[0])
    else FindById(users[1..], id)
  }

  /** `findUnique({ where: { email } })`. */
  function FindByEmail(users: seq<User>, email: string): (r: Option<User>)
    ensures r.Some? ==> r.value in users && r.value.email == email
    ensures r.None? ==> forall i :: 0 <= i < |users| ==> users[i].email != email
  {
    if users == [] then None
    else if users[0].email == email then Some(users[0])
    else FindByEmail(users[1..], email)
  }

  /** Ids and emails are unique columns. */
  predicate UniqueKeys(users: seq<User>) {
    forall i, j :: 0 <= i < j < |users| ==> users[i].id != users[j].id && users[i].email != users[j].email
  }

  /** The row `upsert` creates for a new email: a student, active, not banned, named from the address. */
  function NewStudent(id: string, email: string): (u: User)
    ensures u.id == id && u.email == email && u.role == "STUDENT"
    ensures u.isActive && !u.isBanned && !u.isAdmin
    ensures u.firstName == DeriveNamesFromEmail(email).firstName
    ensures u.lastName == DeriveNamesFromEmail(email).lastName
  {
    var names := DeriveNamesFromEmail(email);
    User(id, email, "STUDENT", true, false, false, names.firstName, names.lastName)
  }

  /**
   * `upsert({ where: { email }, update: {}, create: ... })`: the existing
   * row is returned untouched; otherwise a new student row with the fresh
   * id is appended and returned.
   */
  function UpsertByEmail(users: seq<User>, email: string, freshId: string): (r: (seq<User>, User))
    ensures FindByEmail(users, email).Some? ==> r == (users, FindByEmail(users, email).value)
    ensures FindByEmail(users, email).None? ==> r == (users + [NewStudent(freshId, email)], NewStudent(freshId, email))
    ensures r.1.email == email && r.1 in r.0
  {
    match FindByEmail(users, email)
    case Some(u) => (users, u)
    case None => var u := NewStudent(freshId, email); (users + [u], u)
  }

  /** With a fresh id, the upsert keeps ids and emails unique and makes the email findable. */
  lemma UpsertKeepsKeys(users: seq<User>, email: string, freshId: string)
    requires UniqueKeys(users)
    requires FindById(users, freshId).None?
    ensures UniqueKeys(UpsertByEmail(users, email, freshId).0)
    ensures FindByEmail(UpsertByEmail(users, email, freshId).0, email) == Some(UpsertByEmail(users, email, freshId).1)
  {
    if FindByEmail(users, email).None? {
      var u := NewStudent(freshId, email);
      AppendKeepsKeys(users, u);
      FindByEmailLast(users, u);
    }
  }

  lemma AppendKeepsKeys(users: seq<User>, u: User)
    requires UniqueKeys(users)
    requires FindById(users, u.id).None? && FindByEmail(users, u.email).None?
    ensures UniqueKeys(users + [u])
  {
    var r := users + [u];
    forall i, j | 0 <= i < j < |r| ensures r[i].id != r[j].id && r[i].email != r[j].email {
      if j == |users| {
        assert r[i] == users[i];
      }
    }
  }

  lemma {:induction false} FindByEmailLast(users: seq<User>, u: User)
    requires FindByEmail(users, u.email).None?
    ensures FindByEmail(users + [u], u.email) == Some(u)
  {
    if users != [] {
      assert (users + [u])[1..] == users[1..] + [u];
      FindByEmailLast(users[1..], u);
    }
  }

  /** Other rows are unaffected: a lookup by any other id or email answers as before. */
  lemma {:induction false} UpsertLeavesOthers(users: seq<User>, email: string, freshId: string, id: string, other: string)
    requires id != freshId && other != email
    ensures FindById(UpsertByEmail(users, email, freshId).0, id) == FindById(users, id)
    ensures FindByEmail(UpsertByEmail(users, email, freshId).0, other) == FindByEmail(users, other)
  {
    if FindByEmail(users, email).None? {
      FindAppendOther(users, NewStudent(freshId, email), id, other);
    }
  }

  lemma {:induction false} FindAppendOther(users: seq<User>, u: User, id: string, email: string)
    requires u.id != id && u.email != email
    ensures FindById(users + [u], id) == FindById(users, id)
    ensures FindByEmail(users + [u], email) == FindByEmail(users, email)
  {
    if users != [] {
      assert (users + [u])[1..] == users[1..] + [u];
      FindAppendOther(users[1..], u, id, email);
    }
  }
}
