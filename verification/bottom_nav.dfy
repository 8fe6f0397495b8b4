/**
 * The bottom navigation bar of src/components/BottomNav.tsx: it asks
 * `/api/auth/me` who is signed in, renders nothing for a visitor, hides the
 * admin-only item from non-admins, and highlights the item the current path
 * is under.
 */
module BottomNav {
  import opened Wrappers
  import opened Text
  import opened Seqs
  import opened JsonBody
  import opened Session
  import opened Users
  import Auth
  import Gates

  datatype NavItem = NavItem(href: string, caption: string, adminOnly: bool)

  /** `items`, in display order. */
  const Items: seq<NavItem> := [
    NavItem("/home", "Home", false),
    NavItem("/feed", "Browse", false),
    NavItem("/my-events", "My Events", false),
    NavItem("/my-created-events", "Created", true),
    NavItem("/profile", "Profile", false)
  ]

  function ShownTo(isAdmin: bool): NavItem -> bool {
    (i: NavItem) => !i.adminOnly || isAdmin
  }

  /** The items rendered: none for a visitor, otherwise those the viewer may see, in order. */
  function Visible(authed: bool, isAdmin: bool): (r: seq<NavItem>)
    ensures !authed ==> r == []
    ensures authed ==> forall i :: 0 <= i < |Items| ==> (Items[i] in r <==> !Items[i].adminOnly || isAdmin)
  {
    if !authed then [] else Filter(Items, ShownTo(isAdmin))
  }

  /** An admin sees all five items; anyone else signed in sees all but "Created", in the same order. */
  lemma VisibleItems(isAdmin: bool)
    ensures Visible(true, isAdmin) == if isAdmin then Items else Items[..3] + Items[4..]
  {
    if isAdmin {
      FilterAll(Items, ShownTo(isAdmin));
    } else {
      FilterSkipOne(Items, ShownTo(isAdmin), 3);
    }
  }

  /** The item for `href` is highlighted on that path and on every path below it. */
  predicate IsActive(path: string, href: string) {
    path == href || StartsWith(path, href + "/")
  }

  /** A path longer than `href` that begins with it highlights the item only when a `/` follows, so `/homepage` does not highlight `/home`. */
  lemma ActiveExtension(href: string, rest: string)
    ensures IsActive(href + rest, href) <==> rest == [] || rest[0] == '/'
  {
    var path := href + rest;
    if rest != [] && rest[0] == '/' {
      assert path[..|href + "/"|] == href + "/";
    }
    if StartsWith(path, href + "/") {
      assert path[|href|] == (href + "/")[|href|];
    }
  }

  /** Whatever the path, the highlighted item, if any, is unique. */
  lemma ActiveUnique(path: string, i: int, j: int)
    requires 0 <= i < |Items| && 0 <= j < |Items|
    requires IsActive(path, Items[i].href) && IsActive(path, Items[j].href)
    ensures i == j
  {
    var h1 := Items[i].href;
    var h2 := Items[j].href;
    HrefFacts(i);
    HrefFacts(j);
    if |h1| <= |h2| {
      ActivePrefix(path, h1, h2);
    } else {
      ActivePrefix(path, h2, h1);
    }
    HrefsDistinct(i, j);
  }

  /** Every href starts with its only `/`. */
  lemma HrefFacts(i: int)
    requires 0 <= i < |Items|
    ensures |Items[i].href| >= 2 && Items[i].href[0] == '/'
    ensures forall k :: 1 <= k < |Items[i].href| ==> Items[i].href[k] != '/'
  {
  }

  lemma HrefsDistinct(i: int, j: int)
    requires 0 <= i < |Items| && 0 <= j < |Items|
    requires Items[i].href == Items[j].href
    ensures i == j
  {
  }

  /** Two items active on one path: the shorter href is a prefix of the longer, followed by `/` if it is shorter. */
  lemma ActivePrefix(path: string, h1: string, h2: string)
    requires |h1| <= |h2|
    requires IsActive(path, h1) && IsActive(path, h2)
    requires forall k :: 1 <= k < |h2| ==> h2[k] != '/'
    requires |h1| >= 1
    ensures h1 == h2
  {
    ActiveHead(path, h1);
    ActiveHead(path, h2);
    assert h2[..|h1|] == path[..|h1|];
  }

  /** An active `href` is a prefix of the path, followed by `/` when the path is longer. */
  lemma ActiveHead(path: string, href: string)
    requires IsActive(path, href)
    ensures |href| <= |path| && path[..|href|] == href
    ensures |path| > |href| ==> path[|href|] == '/'
  {
    if path != href {
      assert path[..|href| + 1] == href + "/";
      assert path[..|href|] == path[..|href| + 1][..|href|];
      assert path[|href|] == path[..|href| + 1][|href|];
    }
  }

  /** What came back from `fetch("/api/auth/me")`: a network failure, or a status and the body if it parsed. */
  datatype MeReply = NetworkError | Reply(status: int, body: Option<Json>)

  /** The component's state: `authed`, `isAdmin`, and the effect's `cancelled` flag. */
  class NavState {
    var authed: bool
    var isAdmin: bool
    var cancelled: bool

    constructor()
      ensures !authed && !isAdmin && !cancelled
    {
      authed := false;
      isAdmin := false;
      cancelled := false;
    }

    /** The effect's cleanup on unmount. */
    method Cancel()
      modifies this
      ensures cancelled && authed == old(authed) && isAdmin == old(isAdmin)
    {
      cancelled := true;
    }

    /**
     * The promise chain of the effect: an ok status with a parsed body signs
     * the bar in, `isAdmin` taken as the truthiness of the body's field;
     * anything else signs it out. A body that is JSON `null` signs the bar in
     * and then throws on reading `data.isAdmin`, so the `catch` signs it out
     * again. After cleanup nothing changes.
     */
    method OnMeReply(reply: MeReply)
      modifies this
      ensures cancelled == old(cancelled)
      ensures old(cancelled) ==> authed == old(authed) && isAdmin == old(isAdmin)
      ensures !old(cancelled) ==>
        (authed <==> reply.Reply? && 200 <= reply.status < 300 && reply.body.Some? && reply.body.value != JNull)
      ensures !old(cancelled) && authed ==> isAdmin == TruthyField(reply.body.value, "isAdmin")
      ensures !old(cancelled) && !authed ==> isAdmin == old(isAdmin)
    {
      if reply.Reply? && 200 <= reply.status < 300 && reply.body.Some? {
        if cancelled {
          return;
        }
        authed := true;
        if reply.body.value == JNull {
          // `null.isAdmin` throws before `setIsAdmin`; the catch runs next.
          authed := false;
          return;
        }
        isAdmin := TruthyField(reply.body.value, "isAdmin");
      } else if !cancelled {
        authed := false;
      }
    }
  }

  /**
   * The `/api/auth/me` response never carries a top-level `isAdmin`, so the
   * bar built from it hides "Created" from every signed-in user, admins
   * included.
   */
  lemma CreatedNeverShown(k: Codec, nowMs: int, header: Option<string>, users: seq<User>, production: bool)
    ensures var r := Gates.Me(k, nowMs, header, users, production);
      forall authed :: Visible(authed, TruthyField(r.body, "isAdmin")) == Visible(authed, false)
    ensures forall authed :: Items[3] !in Visible(authed, false)
  {
    Gates.MeSuccessBody(k, nowMs, header, users, production);
  }

  /** With the admin flag in the response, "Created" is shown exactly to the users `requireAdmin` lets in. */
  lemma CreatedShownToAdmins(k: Codec, nowMs: int, header: Option<string>, users: seq<User>, production: bool,
                             adminEnv: Option<string>)
    ensures var r := Gates.MeWithAdminFlag(k, nowMs, header, users, production, Gates.AdminEmails(adminEnv));
      r.status == 200 ==>
        var row := FindById(users, Auth.GetSessionFromRequest(k, nowMs, header).value.uid).value;
        (Items[3] in Visible(true, TruthyField(r.body, "isAdmin")) <==> Gates.IsAdminRow(row, Gates.AdminEmails(adminEnv)))
  {
    var r := Gates.MeWithAdminFlag(k, nowMs, header, users, production, Gates.AdminEmails(adminEnv));
    assert Items[3].adminOnly;
  }
}
