/**
 * The event table as the admin pages change it: the owner listing and the
 * publish, unpublish and delete server actions of
 * src/app/my-created-events/page.tsx, and the row the `createEvent` action
 * of src/app/events/new/page.tsx inserts.
 */
module Events {
  import opened Wrappers
  import opened Seqs
  import opened Gates
  import opened EventForm

  datatype Event = Event(
    id: string, title: string, location: Option<string>, description: Option<string>,
    startAt: int, endAt: Option<int>, isPublished: bool, createdById: Option<string>)

  /** Event ids are a unique column. */
  predicate UniqueIds(events: seq<Event>) {
    forall i, j :: 0 <= i < j < |events| ==> events[i].id != events[j].id
  }

  /** `event.findUnique({ where: { id } })`. */
  function FindEvent(events: seq<Event>, id: string): (r: Option<nat>)
    ensures r.Some? ==> r.value < |events| && events[r.value].id == id
    ensures r.None? ==> forall i :: 0 <= i < |events| ==> events[i].id != id
  {
    if events == [] then None
    else if events[0].id == id then Some(0)
    else
      match FindEvent(events[1..], id)
      case None => None
      case Some(i) => Some(i + 1)
  }

  /** `where: { createdById: adminId }`. */
  function OwnedBy(adminId: string): Event -> bool {
    (e: Event) => e.createdById == Some(adminId)
  }

  /** `orderBy: [{ isPublished: "desc" }, { startAt: "asc" }]`: `a` may be listed before `b`. */
  predicate ListedBefore(a: Event, b: Event) {
    (a.isPublished && !b.isPublished) || (a.isPublished == b.isPublished && a.startAt <= b.startAt)
  }

  predicate ListingSorted(s: seq<Event>) {
    forall i, j :: 0 <= i < j < |s| ==> ListedBefore(s[i], s[j])
  }

  function Insert(e: Event, s: seq<Event>): (r: seq<Event>)
    requires ListingSorted(s)
    ensures ListingSorted(r)
    ensures multiset(r) == multiset(s) + multiset{e}
  {
    if s == [] then [e]
    else if ListedBefore(e, s[0]) then
      InsertFront(e, s);
      [e] + s
    else
      var rest := Insert(e, s[1..]);
      InsertBehind(e, s, rest);
      [s[0]] + rest
  }

  lemma InsertFront(e: Event, s: seq<Event>)
    requires ListingSorted(s) && s != [] && ListedBefore(e, s[0])
    ensures ListingSorted([e] + s)
  {
    var r := [e] + s;
    forall i, j | 0 <= i < j < |r| ensures ListedBefore(r[i], r[j]) {
      if i == 0 {
        assert ListedBefore(s[0], s[j - 1]) || j == 1;
      } else {
        assert r[i] == s[i - 1] && r[j] == s[j - 1];
      }
    }
  }

  lemma InsertBehind(e: Event, s: seq<Event>, rest: seq<Event>)
    requires ListingSorted(s) && s != [] && !ListedBefore(e, s[0])
    requires ListingSorted(rest) && multiset(rest) == multiset(s[1..]) + multiset{e}
    ensures ListingSorted([s[0]] + rest)
    ensures multiset([s[0]] + rest) == multiset(s) + multiset{e}
  {
    assert s == [s[0]] + s[1..];
    var r := [s[0]] + rest;
    forall i, j | 0 <= i < j < |r| ensures ListedBefore(r[i], r[j]) {
      if i == 0 {
        var x := rest[j - 1];
        assert x in multiset(rest);
        if x != e {
          assert x in multiset(s[1..]);
          var m :| 0 <= m < |s[1..]| && s[1..][m] == x;
          assert ListedBefore(s[0], s[m + 1]);
        }
      } else {
        assert r[i] == rest[i - 1] && r[j] == rest[j - 1];
      }
    }
  }

  /** The rows in the listing order (rows equal in both keys keep no particular order). */
  function SortListing(s: seq<Event>): (r: seq<Event>)
    ensures ListingSorted(r)
    ensures multiset(r) == multiset(s)
  {
    if s == [] then []
    else
      assert s == [s[0]] + s[1..];
      Insert(s[0], SortListing(s[1..]))
  }

  /** The `findMany` of the page: the admin's own events, published first, then by start. */
  function OwnerListing(events: seq<Event>, adminId: string): (r: seq<Event>)
    ensures ListingSorted(r)
    ensures multiset(r) == multiset(Filter(events, OwnedBy(adminId)))
    ensures forall i :: 0 <= i < |r| ==> r[i].createdById == Some(adminId)
  {
    var r := SortListing(Filter(events, OwnedBy(adminId)));
    assert forall i :: 0 <= i < |r| ==> r[i] in multiset(Filter(events, OwnedBy(adminId)));
    r
  }

  /** Every one of the admin's events is listed, as often as it is stored. */
  lemma OwnerListingComplete(events: seq<Event>, adminId: string, e: Event)
    ensures multiset(OwnerListing(events, adminId))[e] == if e.createdById == Some(adminId) then multiset(events)[e] else 0
  {
    FilterMultiset(events, OwnedBy(adminId), e);
  }

  /** What the page renders. */
  datatype PageView = LoginRedirect | Denied | Listing(events: seq<Event>)

  /** MyCreatedEventsPage: the denial view queries nothing; otherwise the owner listing. */
  function MyCreatedEventsPage(admin: AdminOutcome, events: seq<Event>): (v: PageView)
    ensures admin.AdminRedirect? <==> v.LoginRedirect?
    ensures v.Denied? <==> admin.AdminDecision? && (!admin.allowed || admin.user.None?)
    ensures v.Listing? ==> v.events == OwnerListing(events, admin.user.value.id)
  {
    match admin
    case AdminRedirect => LoginRedirect
    case AdminDecision(allowed, user) =>
      if !allowed || user.None? then Denied else Listing(OwnerListing(events, user.value.id))
  }

  /** The guards shared by the three actions: allowed admin, non-empty id, existing event created by that admin. */
  predicate MayManage(admin: AdminOutcome, eventId: Option<string>, events: seq<Event>) {
    && admin.AdminDecision? && admin.allowed && admin.user.Some?
    && eventId.Some? && eventId.value != ""
    && FindEvent(events, eventId.value).Some?
    && events[FindEvent(events, eventId.value).value].createdById == Some(admin.user.value.id)
  }

  /** `event.update({ where: { id }, data: { isPublished: flag } })`. */
  function SetPublished(events: seq<Event>, id: string, flag: bool): (r: seq<Event>)
    ensures |r| == |events|
    ensures forall i :: 0 <= i < |events| && events[i].id != id ==> r[i] == events[i]
    ensures forall i :: 0 <= i < |events| && events[i].id == id ==> r[i] == events[i].(isPublished := flag)
  {
    seq(|events|, i requires 0 <= i < |events| => if events[i].id == id then events[i].(isPublished := flag) else events[i])
  }

  /** Setting the flag twice is setting it once, and setting it to the value it has changes nothing. */
  lemma SetPublishedIdempotent(events: seq<Event>, id: string, flag: bool)
    ensures SetPublished(SetPublished(events, id, flag), id, flag) == SetPublished(events, id, flag)
    ensures (forall i :: 0 <= i < |events| && events[i].id == id ==> events[i].isPublished == flag) ==>
      SetPublished(events, id, flag) == events
  {
  }

  /** `event.delete({ where: { id } })`. */
  function NotId(id: string): Event -> bool {
    (e: Event) => e.id != id
  }

  function RemoveEvent(events: seq<Event>, id: string): seq<Event> {
    Filter(events, NotId(id))
  }

  /** Deleting an existing event removes that row and keeps every other row, in order. */
  lemma RemoveEventExact(events: seq<Event>, id: string)
    requires UniqueIds(events)
    ensures forall i :: 0 <= i < |RemoveEvent(events, id)| ==> RemoveEvent(events, id)[i].id != id
    ensures FindEvent(events, id).Some? ==>
      multiset(RemoveEvent(events, id)) + multiset{events[FindEvent(events, id).value]} == multiset(events)
    ensures FindEvent(events, id).None? ==> RemoveEvent(events, id) == events
  {
    match FindEvent(events, id)
    case None =>
      FilterAll(events, NotId(id));
    case Some(k) =>
      forall e ensures multiset(RemoveEvent(events, id))[e] + multiset{events[k]}[e] == multiset(events)[e] {
        FilterMultiset(events, NotId(id), e);
        if e == events[k] {
          OccursOnce(events, k);
        } else if e.id == id {
          MissingEvent(events, k, e);
        }
      }
  }

  lemma MissingEvent(events: seq<Event>, k: nat, e: Event)
    requires UniqueIds(events) && k < |events| && e.id == events[k].id && e != events[k]
    ensures multiset(events)[e] == 0
  {
    forall j | 0 <= j < |events| ensures events[j] != e {
      if j != k {
        assert events[j].id != events[k].id;
      }
    }
  }

  lemma OccursOnce(events: seq<Event>, k: nat)
    requires UniqueIds(events) && k < |events|
    ensures multiset(events)[events[k]] == 1
  {
    var x := events[k];
    assert events == events[..k] + [x] + events[k + 1..];
    forall j | 0 <= j < k ensures events[..k][j] != x {
      assert events[j].id != x.id;
    }
    var after := events[k + 1..];
    forall j | 0 <= j < |after| ensures after[j] != x {
      assert after[j] == events[k + 1 + j];
    }
    assert x !in events[..k] && x !in events[k + 1..];
  }

  /** The table the admin pages change in place. */
  class EventTable {
    var events: seq<Event>

    ghost predicate Valid()
      reads this
    {
      UniqueIds(events)
    }

    constructor(events: seq<Event>)
      requires UniqueIds(events)
      ensures Valid() && this.events == events
    {
      this.events := events;
    }

    /** The `publishEvent` action. */
    method Publish(admin: AdminOutcome, eventId: Option<string>)
      requires Valid()
      modifies this
      ensures Valid()
      ensures MayManage(admin, eventId, old(events)) ==> events == SetPublished(old(events), eventId.value, true)
      ensures !MayManage(admin, eventId, old(events)) ==> events == old(events)
    {
      if admin.AdminRedirect? || !admin.allowed || admin.user.None? {
        return;
      }
      if eventId.None? || eventId.value == "" {
        return;
      }
      var found := FindEvent(events, eventId.value);
      if found.None? || events[found.value].createdById != Some(admin.user.value.id) {
        return;
      }
      events := SetPublished(events, eventId.value, true);
    }

    /** The `unpublishEvent` action. */
    method Unpublish(admin: AdminOutcome, eventId: Option<string>)
      requires Valid()
      modifies this
      ensures Valid()
      ensures MayManage(admin, eventId, old(events)) ==> events == SetPublished(old(events), eventId.value, false)
      ensures !MayManage(admin, eventId, old(events)) ==> events == old(events)
    {
      if admin.AdminRedirect? || !admin.allowed || admin.user.None? {
        return;
      }
      if eventId.None? || eventId.value == "" {
        return;
      }
      var found := FindEvent(events, eventId.value);
      if found.None? || events[found.value].createdById != Some(admin.user.value.id) {
        return;
      }
      events := SetPublished(events, eventId.value, false);
    }

    /** The `deleteEvent` action. */
    method Delete(admin: AdminOutcome, eventId: Option<string>)
      requires Valid()
      modifies this
      ensures Valid()
      ensures MayManage(admin, eventId, old(events)) ==> events == RemoveEvent(old(events), eventId.value)
      ensures !MayManage(admin, eventId, old(events)) ==> events == old(events)
    {
      if admin.AdminRedirect? || !admin.allowed || admin.user.None? {
        return;
      }
      if eventId.None? || eventId.value == "" {
        return;
      }
      var found := FindEvent(events, eventId.value);
      if found.None? || events[found.value].createdById != Some(admin.user.value.id) {
        return;
      }
      var remaining := RemoveEvent(events, eventId.value);
      assert forall i :: 0 <= i < |remaining| ==> remaining[i] in events;
      RemovePreservesUnique(events, eventId.value);
      events := remaining;
    }

    /**
     * The `createEvent` action for a signed-in user: on valid fields, one
     * published row without an owner; on the first failing check, the
     * redirect back to the form and no row.
     */
    method CreateEvent(auth: AuthOutcome, fields: EventFields, parseDate: string -> Option<int>, freshId: string)
      returns (redirect: string)
      requires Valid() && FindEvent(events, freshId).None?
      modifies this
      ensures Valid()
      ensures auth.RedirectToLogin? ==> redirect == "/login" && events == old(events)
      ensures auth.Authenticated? && ValidateEvent(fields, parseDate).Invalid? ==>
        redirect == ErrorRedirect(ValidateEvent(fields, parseDate).error) && events == old(events)
      ensures auth.Authenticated? && ValidateEvent(fields, parseDate).Valid? ==>
        var d := ValidateEvent(fields, parseDate).draft;
        && events == old(events) + [Event(freshId, d.title, d.location, d.description, d.startAt, d.endAt, true, None)]
        && redirect == "/event/" + freshId
    {
      if auth.RedirectToLogin? {
        return "/login";
      }
      match ValidateEvent(fields, parseDate)
      case Invalid(e) =>
        redirect := ErrorRedirect(e);
      case Valid(d) =>
        var created := Event(freshId, d.title, d.location, d.description, d.startAt, d.endAt, true, None);
        AppendFreshUnique(events, created);
        events := events + [created];
        redirect := "/event/" + freshId;
    }
  }

  lemma RemovePreservesUnique(events: seq<Event>, id: string)
    requires UniqueIds(events)
    ensures UniqueIds(RemoveEvent(events, id))
  {
    var r := RemoveEvent(events, id);
    forall i, j | 0 <= i < j < |r| ensures r[i].id != r[j].id {
      RemoveKeepsOrder(events, NotId(id), i, j);
    }
  }

  lemma AppendFreshUnique(events: seq<Event>, e: Event)
    requires UniqueIds(events) && FindEvent(events, e.id).None?
    ensures UniqueIds(events + [e])
  {
  }

  /** Two positions of a filtered sequence come from two distinct positions of the original. */
  lemma {:induction false} RemoveKeepsOrder(s: seq<Event>, p: Event -> bool, i: nat, j: nat)
    requires i < j < |Filter(s, p)|
    ensures exists a, b :: 0 <= a < b < |s| && s[a] == Filter(s, p)[i] && s[b] == Filter(s, p)[j]
    decreases |s|
  {
    var init := s[..|s| - 1];
    assert s == init + [s[|s| - 1]];
    var f := Filter(init, p);
    if j < |f| {
      RemoveKeepsOrder(init, p, i, j);
      var a, b :| 0 <= a < b < |init| && init[a] == f[i] && init[b] == f[j];
      assert s[a] == init[a] && s[b] == init[b];
    } else {
      assert Filter(s, p)[j] == s[|s| - 1];
      assert Filter(s, p)[i] == f[i];
      var a :| 0 <= a < |init| && init[a] == f[i];
      assert s[a] == init[a];
    }
  }

  /** A created event has no owner, so it is in no admin's listing: the listing is what it was. */
  lemma CreatedNotListed(events: seq<Event>, created: Event, adminId: string)
    requires created.createdById.None?
    ensures multiset(OwnerListing(events + [created], adminId)) == multiset(OwnerListing(events, adminId))
  {
    FilterAppend(events, [created], OwnedBy(adminId));
    assert Filter([created], OwnedBy(adminId)) == [];
  }
}
