/**
 * The validation chain of the `createEvent` server action
 * (src/app/events/new/page.tsx): the fields are read and trimmed, then the
 * checks run in order and the first failure redirects back to the form.
 * `new Date(text)` is the parameter `parseDate` (milliseconds, or `None`
 * for an invalid date).
 */
module EventForm {
  import opened Wrappers
  import opened Text

  const MaxTitleLength: nat := 120

  /** The form fields as `formData.get` returns them (`None` for a missing field). */
  datatype EventFields = EventFields(
    title: Option<string>, location: Option<string>, description: Option<string>,
    startAt: Option<string>, endAt: Option<string>)

  /** The first failing check, in the order the action runs them. */
  datatype EventError =
    | TitleRequired | TitleTooLong | StartRequired | InvalidStart | InvalidEnd | EndNotAfterStart

  /** The data of the row the action creates. */
  datatype EventDraft = EventDraft(
    title: string, location: Option<string>, description: Option<string>,
    startAt: int, endAt: Option<int>)

  datatype Validated = Invalid(error: EventError) | Valid(draft: EventDraft)

  /** The query string of the redirect for each failure. */
  function ErrorRedirect(e: EventError): string {
    match e
    case TitleRequired => "/events/new?error=Title+is+required"
    case TitleTooLong => "/events/new?error=Title+is+too+long"
    case StartRequired => "/events/new?error=Start+date+is+required"
    case InvalidStart => "/events/new?error=Invalid+start+date"
    case InvalidEnd => "/events/new?error=Invalid+end+date"
    case EndNotAfterStart => "/events/new?error=End+must+be+after+start"
  }

  /** `(field as string | null)?.trim() || null`: trimmed, with an empty result read as absent. */
  function TrimmedOrNull(field: Option<string>): (r: Option<string>)
    ensures r.Some? ==> field.Some? && r.value == Trim(field.value) && r.value != ""
    ensures r.None? ==> field.None? || Trim(field.value) == ""
  {
    if field.None? then None
    else
      var t := Trim(field.value);
      if t == "" then None else Some(t)
  }

  /** The title after trimming, or `None` when the field is missing. */
  function TrimmedTitle(fields: EventFields): Option<string> {
    if fields.title.Some? then Some(Trim(fields.title.value)) else None
  }

  /** The checks of `createEvent`, in order; the start text is parsed untrimmed and the end text trimmed. */
  function ValidateEvent(fields: EventFields, parseDate: string -> Option<int>): (r: Validated)
    ensures r.Valid? ==>
      && fields.title.Some? && r.draft.title == Trim(fields.title.value)
      && 0 < |r.draft.title| <= MaxTitleLength
      && r.draft.location == TrimmedOrNull(fields.location)
      && r.draft.description == TrimmedOrNull(fields.description)
      && fields.startAt.Some? && parseDate(fields.startAt.value) == Some(r.draft.startAt)
      && (r.draft.endAt.Some? ==> r.draft.endAt.value > r.draft.startAt)
      && (r.draft.endAt.None? <==> TrimmedOrNull(fields.endAt).None?)
      && (r.draft.endAt.Some? ==> parseDate(TrimmedOrNull(fields.endAt).value) == r.draft.endAt)
  {
    var title := TrimmedTitle(fields);
    var location := TrimmedOrNull(fields.location);
    var description := TrimmedOrNull(fields.description);
    var endRaw := TrimmedOrNull(fields.endAt);
    if title.None? || title.value == "" then Invalid(TitleRequired)
    else if |title.value| > MaxTitleLength then Invalid(TitleTooLong)
    else if fields.startAt.None? || fields.startAt.value == "" then Invalid(StartRequired)
    else
      match parseDate(fields.startAt.value)
      case None => Invalid(InvalidStart)
      case Some(start) =>
        if endRaw.None? then Valid(EventDraft(title.value, location, description, start, None))
        else
          match parseDate(endRaw.value)
          case None => Invalid(InvalidEnd)
          case Some(end) =>
            if end <= start then Invalid(EndNotAfterStart)
            else Valid(EventDraft(title.value, location, description, start, Some(end)))
  }

  predicate TitleOk(fields: EventFields) {
    TrimmedTitle(fields).Some? && 0 < |TrimmedTitle(fields).value| <= MaxTitleLength
  }

  predicate StartOk(fields: EventFields, parseDate: string -> Option<int>) {
    fields.startAt.Some? && fields.startAt.value != "" && parseDate(fields.startAt.value).Some?
  }

  /**
   * Each error is reported exactly when every earlier check passed and its
   * own check fails; in particular a missing or blank title always wins.
   */
  lemma ValidationOrder(fields: EventFields, parseDate: string -> Option<int>)
    ensures var r := ValidateEvent(fields, parseDate);
      && (r == Invalid(TitleRequired) <==> TrimmedTitle(fields).None? || TrimmedTitle(fields).value == "")
      && (r == Invalid(TitleTooLong) <==> TrimmedTitle(fields).Some? && |TrimmedTitle(fields).value| > MaxTitleLength)
      && (r == Invalid(StartRequired) <==> TitleOk(fields) && (fields.startAt.None? || fields.startAt.value == ""))
      && (r == Invalid(InvalidStart) <==>
            TitleOk(fields) && fields.startAt.Some? && fields.startAt.value != "" && parseDate(fields.startAt.value).None?)
      && (r == Invalid(InvalidEnd) <==>
            TitleOk(fields) && StartOk(fields, parseDate) && TrimmedOrNull(fields.endAt).Some?
            && parseDate(TrimmedOrNull(fields.endAt).value).None?)
      && (r == Invalid(EndNotAfterStart) <==>
            TitleOk(fields) && StartOk(fields, parseDate) && TrimmedOrNull(fields.endAt).Some?
            && parseDate(TrimmedOrNull(fields.endAt).value).Some?
            && parseDate(TrimmedOrNull(fields.endAt).value).value <= parseDate(fields.startAt.value).value)
  {
    var r := ValidateEvent(fields, parseDate);
    var title := TrimmedTitle(fields);
    var endRaw := TrimmedOrNull(fields.endAt);
    if title.None? || title.value == "" {
      assert r == Invalid(TitleRequired);
    } else if |title.value| > MaxTitleLength {
      assert r == Invalid(TitleTooLong);
    } else if fields.startAt.None? || fields.startAt.value == "" {
      assert r == Invalid(StartRequired);
    } else if parseDate(fields.startAt.value).None? {
      assert r == Invalid(InvalidStart);
    } else if endRaw.None? {
      assert r.Valid?;
    } else if parseDate(endRaw.value).None? {
      assert r == Invalid(InvalidEnd);
    } else if parseDate(endRaw.value).value <= parseDate(fields.startAt.value).value {
      assert r == Invalid(EndNotAfterStart);
    } else {
      assert r.Valid?;
    }
  }

  /** An end equal to the start is rejected; only a strictly later end is accepted. */
  lemma EndEqualToStartRejected(fields: EventFields, parseDate: string -> Option<int>)
    requires TitleOk(fields) && StartOk(fields, parseDate)
    requires TrimmedOrNull(fields.endAt).Some?
    requires parseDate(TrimmedOrNull(fields.endAt).value) == parseDate(fields.startAt.value)
    ensures ValidateEvent(fields, parseDate) == Invalid(EndNotAfterStart)
  {
  }
}
