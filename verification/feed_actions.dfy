/**
 * The like / bookmark / attend buttons of src/components/FeedActionRow.tsx:
 * an optimistic flip of the flag and its counter, the API call, and a revert
 * when the call fails. The outcome of the request is a parameter.
 */
module FeedActions {
  import opened Wrappers

  datatype Action = Like | Bookmark | Attend

  /** The path segment of each action. */
  function ActionName(a: Action): string {
    match a
    case Like => "like"
    case Bookmark => "bookmark"
    case Attend => "attend"
  }

  /** The call a toggle makes: `DELETE` to undo, `POST` to do. */
  datatype ApiRequest = ApiRequest(path: string, httpMethod: string)

  function ToggleRequest(eventId: string, a: Action, active: bool): (r: ApiRequest)
    ensures r.httpMethod == "DELETE" <==> active
    ensures r.httpMethod == "POST" <==> !active
  {
    ApiRequest("/api/events/" + eventId + "/" + ActionName(a), if active then "DELETE" else "POST")
  }

  /** The three action names are distinct, so each request reaches its own endpoint. */
  lemma RequestsDistinct(eventId: string, a: Action, b: Action, active: bool)
    requires a != b
    ensures ToggleRequest(eventId, a, active).path != ToggleRequest(eventId, b, active).path
  {
    var prefix := "/api/events/" + eventId + "/";
    var pa := ToggleRequest(eventId, a, active).path;
    var pb := ToggleRequest(eventId, b, active).path;
    assert pa == prefix + ActionName(a) && pb == prefix + ActionName(b);
    assert pa[|prefix|..] == ActionName(a);
    assert pb[|prefix|..] == ActionName(b);
  }

  class FeedActionRow {
    const eventId: string
    const isGuest: bool
    var liked: bool
    var bookmarked: bool
    var attending: bool
    var likeCount: int
    var bookmarkCount: int
    var attendeeCount: int
    var loading: bool
    var showModal: bool

    constructor(eventId: string, isGuest: bool, liked: bool, bookmarked: bool, attending: bool,
                likeCount: int, bookmarkCount: int, attendeeCount: int)
      ensures this.eventId == eventId && this.isGuest == isGuest
      ensures Active(Like) == liked && Active(Bookmark) == bookmarked && Active(Attend) == attending
      ensures Count(Like) == likeCount && Count(Bookmark) == bookmarkCount && Count(Attend) == attendeeCount
      ensures !loading && !showModal
    {
      this.eventId := eventId;
      this.isGuest := isGuest;
      this.liked := liked;
      this.bookmarked := bookmarked;
      this.attending := attending;
      this.likeCount := likeCount;
      this.bookmarkCount := bookmarkCount;
      this.attendeeCount := attendeeCount;
      loading := false;
      showModal := false;
    }

    function Active(a: Action): bool
      reads this
    {
      match a
      case Like => liked
      case Bookmark => bookmarked
      case Attend => attending
    }

    function Count(a: Action): int
      reads this
    {
      match a
      case Like => likeCount
      case Bookmark => bookmarkCount
      case Attend => attendeeCount
    }

    /** The count without this viewer's own contribution: what other users have done. */
    function Others(a: Action): int
      reads this
    {
      Count(a) - (if Active(a) then 1 else 0)
    }

    /** `setActive(v)` for one action. */
    method SetActive(a: Action, v: bool)
      modifies this
      ensures Active(a) == v
      ensures forall b :: b != a ==> Active(b) == old(Active(b))
      ensures forall b :: Count(b) == old(Count(b))
      ensures loading == old(loading) && showModal == old(showModal)
    {
      match a
      case Like => liked := v;
      case Bookmark => bookmarked := v;
      case Attend => attending := v;
    }

    /** `setCount((n) => n + delta)` for one action. */
    method AddCount(a: Action, delta: int)
      modifies this
      ensures Count(a) == old(Count(a)) + delta
      ensures forall b :: b != a ==> Count(b) == old(Count(b))
      ensures forall b :: Active(b) == old(Active(b))
      ensures loading == old(loading) && showModal == old(showModal)
    {
      match a
      case Like => likeCount := likeCount + delta;
      case Bookmark => bookmarkCount := bookmarkCount + delta;
      case Attend => attendeeCount := attendeeCount + delta;
    }

    /**
     * The part of `toggle` before the request: loading starts, the flag flips
     * and the count moves by one towards the new flag. Returns the flag as it
     * was, which the request and the revert use.
     */
    method Begin(a: Action) returns (active: bool)
      requires !isGuest
      modifies this
      ensures active == old(Active(a))
      ensures loading && showModal == old(showModal)
      ensures Active(a) == !active && Count(a) == old(Count(a)) + (if active then -1 else 1)
      ensures Others(a) == old(Others(a))
      ensures forall b :: b != a ==> Active(b) == old(Active(b)) && Count(b) == old(Count(b))
    {
      active := Active(a);
      loading := true;
      SetActive(a, !active);
      AddCount(a, if active then -1 else 1);
    }

    /**
     * The part after the request: on failure the flag goes back to `active`
     * and the count moves back by one; loading ends either way.
     */
    method Settle(a: Action, active: bool, ok: bool)
      modifies this
      ensures !loading && showModal == old(showModal)
      ensures ok ==> Active(a) == old(Active(a)) && Count(a) == old(Count(a))
      ensures !ok ==> Active(a) == active && Count(a) == old(Count(a)) + (if active then 1 else -1)
      ensures forall b :: b != a ==> Active(b) == old(Active(b)) && Count(b) == old(Count(b))
    {
      if !ok {
        SetActive(a, active);
        AddCount(a, if active then 1 else -1);
      }
      loading := false;
    }

    /**
     * `toggle`: a guest only gets the sign-in modal; otherwise the request is
     * issued, a success keeps the flipped state and a failure restores the
     * original one exactly. What other users did is never changed.
     */
    method Toggle(a: Action, ok: bool) returns (request: Option<ApiRequest>)
      modifies this
      ensures isGuest ==> request == None && showModal && loading == old(loading)
      ensures isGuest ==> forall b :: Active(b) == old(Active(b)) && Count(b) == old(Count(b))
      ensures !isGuest ==> request == Some(ToggleRequest(eventId, a, old(Active(a))))
      ensures !isGuest ==> !loading && showModal == old(showModal)
      ensures !isGuest && ok ==>
        Active(a) == !old(Active(a)) && Count(a) == old(Count(a)) + (if old(Active(a)) then -1 else 1)
      ensures !isGuest && !ok ==> Active(a) == old(Active(a)) && Count(a) == old(Count(a))
      ensures forall b :: b != a ==> Active(b) == old(Active(b)) && Count(b) == old(Count(b))
      ensures Others(a) == old(Others(a))
    {
      if isGuest {
        showModal := true;
        return None;
      }
      var active := Begin(a);
      request := Some(ToggleRequest(eventId, a, active));
      Settle(a, active, ok);
    }
  }
}
