# msu-life login, gates and event rules in Dafny

This project models the core of msu-life, a campus events web app. Students
sign in with a one-time code sent to their `ndus.edu` address. A signed
session cookie then identifies them to the server-side gates. Admins publish
and delete the events they created, and the client shows a calendar, a feed
action row and a bottom navigation bar.

The model covers:

- **Codes** (`otp.dfy`). Six-digit code formatting and the peppered SHA-256
  preimage. The random draw and SHA-256 are parameters.
- **Login routes** (`rate_limit.dfy`, `users.dfy`, `otp_routes.dfy`). The
  `request-otp` and `verify-otp` routes are methods of a class `AuthStore`
  that holds the code table and the user table as sequences. The clock, the
  drawn number and the id of a new user row are parameters.
- **Session token** (`session.dfy`). The format is `base64url(JSON) + "." +
  HMAC`, with the encodings and the HMAC as functions in a `Codec`. Their
  laws (round trip, base64url alphabet) are the ghost predicate `Lawful`,
  required by the lemmas that need them.
- **Cookie header parsing** (`auth.dfy`).
- **Gates** (`gates.dfy`). `requireAuth`, `optionalAuth`, `/api/auth/me` and
  `requireAdmin` with its `ADMIN_EMAILS` allow-list, all as pure functions of
  the cookie, the clock and the user table.
- **Identity strings** (`derive_names.dfy`): names, display name and
  username derived from an email address.
- **Events** (`event_form.dfy`, `events.dfy`). The create-event validation
  chain, and the event table as a class whose methods are the owner-guarded
  publish, unpublish and delete actions and the create action. The owner
  listing is specified by order and contents.
- **Calendar** (`calendar_nav.dfy`, `month_grid.dfy`, `list_view.dfy`). Month
  navigation is a class with `GoPrev`/`GoNext`. The grid and the grouping
  loops are methods proved against specification functions.
- **Feed actions** (`feed_actions.dfy`). The optimistic like / bookmark /
  attend toggle is a class over the per-action flags and counts. The request
  outcome is a parameter.
- **Bottom bar** (`bottom_nav.dfy`): which items are visible, which one is
  active, and the state the `/api/auth/me` effect sets.

Support modules: `Wrappers` (`Option`), `Text` (JavaScript `trim`, `split`,
`join`, ASCII case mapping and number formatting), `Seqs` (`filter`, `map`,
`findIndex`) and `JsonBody` (response bodies).

Where a comment and the code disagree, the model follows the code. The
comment of `deriveNamesFromEmail` says trailing digits are stripped, but the
code removes every digit run (`DeriveNames.DigitRunsRemoved`). The comment
of `deriveUsernameFromEmail` says underscores are trimmed, but the cut to 20
characters comes after the trim, so a username can end with `_`
(`DeriveNames.CutMayEndWithUnderscore`).

## Model

| member | source | states |
|---|---|---|
| DeriveNames.CleanToken | src/lib/deriveNames.ts:18 | a cleaned token has no digit, no white space at either end and only characters of the original token; a digit-free token comes out as its trimmed self |
| DeriveNames.DigitRunsRemoved | src/lib/deriveNames.ts:17-18 | a digit run anywhere in a token is dropped, not only a trailing one |
| DeriveNames.TitleCase | src/lib/deriveNames.ts:23 | the same characters up to case, the first not lower-case and the others not upper-case; no digit is introduced |
| DeriveNames.DeriveNamesFromEmail | src/lib/deriveNames.ts:11-29 | first name absent iff no token survives, otherwise the title-cased first surviving token; last name present iff at least two tokens survive, and then the title-cased second; both non-empty and digit-free |
| DeriveNames.DigitsOnlyGivesNoNames | src/lib/deriveNames.ts:15-21 | a local part made only of digits yields no names |
| DeriveNames.SingleToken | src/lib/deriveNames.ts:15-28 | a local part without separators ("john22") gives the title-cased cleaned text as first name and no last name |
| DeriveNames.FirstDotLast | src/lib/deriveNames.ts:16-28 | "a.b" (also with `_` or `-`) gives the title-cased cleaned tokens as first and last name |
| DeriveNames.LaterTokensIgnored | src/lib/deriveNames.ts:25-28 | two addresses whose first two tokens agree derive the same names |
| DeriveNames.ComputeDisplayName | src/lib/deriveNames.ts:35-48 | never empty; "@"+username whenever a non-empty username is given; otherwise "First Last" of the trimmed names when both are non-empty, and the trimmed first name when only it is |
| DeriveNames.LastNameNeedsFirstName | src/lib/deriveNames.ts:42-47 | without a first name the last name has no influence; the result is the local part or "Student" |
| DeriveNames.Sanitize | src/lib/deriveNames.ts:57 | a character of `[a-z0-9_]` is kept, any other becomes `_` |
| DeriveNames.CollapseUnderscores | src/lib/deriveNames.ts:58 | no "__" remains, the first character is kept, nothing new is introduced |
| DeriveNames.CollapseNoRuns | src/lib/deriveNames.ts:58 | a string without "__" is left unchanged |
| DeriveNames.CollapseRun | src/lib/deriveNames.ts:58 | removing one `_` from a run of two or more does not change the result, so each run becomes exactly one `_` |
| DeriveNames.CollapseKeepsOthers | src/lib/deriveNames.ts:58 | every character other than `_` is kept, in order |
| DeriveNames.StripLeadingUnderscores | src/lib/deriveNames.ts:59 | the result is the suffix of the input left after its leading underscores, which are the only characters removed |
| DeriveNames.StripTrailingUnderscores | src/lib/deriveNames.ts:59 | the result is the prefix of the input left before its trailing underscores, which are the only characters removed |
| DeriveNames.CleanedLocalPart | src/lib/deriveNames.ts:55-59 | the cleaned local part uses `[a-z0-9_]`, has no "__" and no `_` at either end, and holds every letter and digit of the lower-cased local part, in order |
| DeriveNames.SanitizedLetters | src/lib/deriveNames.ts:55-57 | lower-casing and sanitising keep exactly the letters and digits of the local part, in order |
| DeriveNames.CleanLocalUnchanged | src/lib/deriveNames.ts:55-59 | a local part that is already a clean username up to case comes out lower-cased and otherwise unchanged |
| DeriveNames.DeriveUsernameFromEmail | src/lib/deriveNames.ts:54-62 | none iff the cleaned part is shorter than 3; otherwise its prefix of length min(length, 20), over `[a-z0-9_]`, with no "__" and no leading `_` |
| DeriveNames.CutMayEndWithUnderscore | src/lib/deriveNames.ts:59-61 | the cut to 20 characters follows the stripping, so nineteen letters, `_` and a letter give a username ending in `_` |
| DeriveNames.NormalizeUsername | src/lib/deriveNames.ts:68-72 | null exactly when the `[a-z0-9_]` characters of the lower-cased input are not 3..20 in number; an accepted username has 3..20 characters from `[a-z0-9_]` |
| DeriveNames.NormalizeAccepts | src/lib/deriveNames.ts:68-72 | a username of 3..20 characters from `[a-z0-9_]` is returned as it is |
| DeriveNames.NormalizeDropsInvalid | src/lib/deriveNames.ts:69 | a character outside `[a-z0-9_]` after lower-casing is dropped wherever it stands |
| DeriveNames.NormalizeIgnoresCase | src/lib/deriveNames.ts:69 | an upper-case letter is treated as its lower-case form |
| DeriveNames.NormalizeIdempotent | src/lib/deriveNames.ts:68-72 | normalising an accepted username again returns it unchanged |
| Otp.PadStart | src/lib/otp.ts:6 | pads with the fill character on the left to the width, keeping the string as a suffix |
| Otp.GenerateOtp | src/lib/otp.ts:5-7 | exactly six decimal digits, leading zeros kept, whose value is the drawn number |
| Otp.GenerateOtpInjective | src/lib/otp.ts:5-7 | distinct draws give distinct codes |
| Otp.PreimageInjective | src/lib/otp.ts:9-13 | for codes of equal length the `email:code:pepper` preimage determines email and code |
| Otp.HashMatchesIffSameCode | src/lib/otp.ts:9-13 | with a collision-free digest, a submitted code matches the stored hash for an email iff it is the issued code |
| Session.EpochSeconds | src/lib/session.ts:29 | the whole seconds of a millisecond clock, rounded down |
| Session.SessionPayload | src/lib/session.ts:26-30 | keeps uid, email and role; exp is the current second plus the TTL |
| Session.VerifySession | src/lib/session.ts:36-51 | rejects tokens without exactly two parts; an accepted token's second part is the signature of its first, its payload is what the first part decodes to, and it has not expired |
| Session.TokenParts | src/lib/session.ts:31-33 | a signed token splits into exactly the encoded payload and its signature |
| Session.SignVerifyRoundTrip | src/lib/session.ts:26-51 | verifying a signed token gives back the signed payload up to and including its exp second, and nothing afterwards |
| Session.ForgedSignatureRejected | src/lib/session.ts:36-42 | any signature text that is not the signature of the payload part is rejected, one holding '.' by the two-part check |
| Session.SessionCookieHeaderParses | src/lib/session.ts:53-56 | the Set-Cookie value reads back as the name=value pair and HttpOnly, SameSite=Lax, Path=/, Max-Age=TTL, plus Secure exactly in production |
| Session.ClearCookieHeaderParses | src/lib/session.ts:58-61 | the clearing header has an empty value and Max-Age=0 |
| Auth.ValueAfterFirstEquals | src/lib/auth.ts:10 | the cookie value is everything after the first `=`, later `=` kept, trimmed |
| Auth.GetSessionFromRequest | src/lib/auth.ts:3-14 | no header, an empty header or no session segment give none; a result is unexpired |
| Auth.PairPrefix | src/lib/auth.ts:8 | a pair `n=v` passes the segment test for a name without `=` iff `n` is that name, so "xmsu_life_session=" does not match |
| Auth.CookieHeaderLookup | src/lib/auth.ts:3-14 | for a header built from well-formed pairs, the session is the verification of the first pair named "msu_life_session", none when there is no such pair or its value is empty |
| Auth.SignedCookieRoundTrip | src/lib/auth.ts:3-14 | a header holding the signed cookie yields its payload until exp and none after |
| Users.FindById | src/lib/requireAuth.ts:19-22 | a found row has the id; no result means no row has it |
| Users.FindByEmail | src/app/api/auth/verify-otp/route.ts:33-38 | a found row has the email; no result means no row has it |
| Users.NewStudent | src/app/api/auth/verify-otp/route.ts:74-86 | a created row is an active, unbanned, non-admin STUDENT named from its address |
| Users.UpsertByEmail | src/app/api/auth/verify-otp/route.ts:74-86 | an existing row is returned untouched with the table unchanged; otherwise a new student row is appended and returned |
| Users.UpsertKeepsKeys | src/app/api/auth/verify-otp/route.ts:74-86 | with a fresh id the upsert keeps ids and emails unique and the email then finds the returned row |
| Users.UpsertLeavesOthers | src/app/api/auth/verify-otp/route.ts:74-86 | lookups by any other id or email answer as before |
| RateLimit.CountSince | src/app/api/auth/request-otp/route.ts:31-36 | the count of stored codes for the address since the window start is at most the table size |
| RateLimit.AdmitAppend | src/app/api/auth/request-otp/route.ts:38-48 | appending a code that passed the limit keeps every stored code admitted |
| RateLimit.RateBound | src/app/api/auth/request-otp/route.ts:31-40 | in an admitted table any closed 10-minute interval holds at most 5 codes for one address, whatever the clock did |
| OtpRoutes.DomainOfAddress | src/app/api/auth/request-otp/route.ts:24 | for an address with one `@`, the domain part is the text after it |
| OtpRoutes.Stamps | src/app/api/auth/request-otp/route.ts:31-36 | the rate limit reads each row's address and creation time, position by position |
| OtpRoutes.NewRecord | src/app/api/auth/request-otp/route.ts:42-48 | the new row stores the peppered hash, is unused, and expires OTP_TTL seconds after creation |
| OtpRoutes.IssuedBodyDebug | src/app/api/auth/request-otp/route.ts:50-62 | the body carries the code and its lifetime iff not in production or OTP_DEBUG_RETURN_CODE is "true"; otherwise it is `{ ok: true }` |
| OtpRoutes.FindNewest | src/app/api/auth/verify-otp/route.ts:49-57 | a found row is eligible (this email and hash, unused, expiring strictly after now) with the latest creation time; none means no row is eligible |
| OtpRoutes.ConsumedNeverFound | src/app/api/auth/verify-otp/route.ts:49-57 | a used row is never found again |
| OtpRoutes.LoginCookieIdentifiesUser | src/app/api/auth/verify-otp/route.ts:93-97 | the cookie a login sets is read back, until it expires, as the persisted row's id, email and role |
| OtpRoutes.AuthStore.constructor | src/app/api/auth/request-otp/route.ts:10 | starts with no codes and the given users, in a valid state |
| OtpRoutes.AuthStore.RequestOtp | src/app/api/auth/request-otp/route.ts:10-63 | 400 for bad JSON or email, 403 for a foreign domain, 429 at 5 recent codes, each with the table unchanged; otherwise exactly one row is appended and the debug body returned; users untouched; rate-limit invariant kept |
| OtpRoutes.AuthStore.ConsumeOtp | src/app/api/auth/verify-otp/route.ts:64-71 | the guarded update marks the row used and counts 1 iff it exists and is unused; otherwise counts 0 and changes nothing |
| OtpRoutes.AuthStore.UpsertUser | src/app/api/auth/verify-otp/route.ts:74-86 | performs the create-if-absent upsert and leaves the code table alone |
| OtpRoutes.AuthStore.VerifyOtp | src/app/api/auth/verify-otp/route.ts:10-98 | 400/403 change nothing; the demo bypass upserts without touching codes; otherwise no eligible row gives 401 with nothing changed, and the newest eligible row is marked used (no other row changes), the user upserted and the login response returned; used rows never change |
| Gates.RequireAuth | src/lib/requireAuth.ts:6-29 | redirects on a missing or empty cookie, a failed verification or an unusable row; otherwise returns the row's id, email and role, with id = the session's uid |
| Gates.OptionalAuth | src/lib/optionalAuth.ts:9-26 | none on a missing or empty cookie or a failed verification; a result has the session's uid |
| Gates.OptionalAgreesWithRequire | src/lib/optionalAuth.ts:9-26 | returns a user exactly when `requireAuth` would, and the same user |
| Gates.Me | src/app/api/auth/me/route.ts:5-27 | 401 without cookie header when no session; 403 with the clearing cookie iff the row is unusable; 200 with `ok` and no cookie otherwise |
| Gates.MeSuccessBody | src/app/api/auth/me/route.ts:23-26 | the 200 body is `{ ok, user: { id, email, role } }` of the row and has no top-level `isAdmin` |
| Gates.AdminEmailsMembership | src/lib/requireAdmin.ts:4-7 | an address is on the list iff it is non-empty and some comma-separated entry trims and lowercases to it |
| Gates.AdminEmailsNormalized | src/lib/requireAdmin.ts:4-7 | every entry is non-empty, lowercase and trimmed |
| Gates.RequireAdmin | src/lib/requireAdmin.ts:9-28 | redirect iff `requireAuth` redirects; allowed iff a user is returned iff the row is usable and is flagged admin or its lowercased email is listed; the user is the row's id and email |
| Gates.MeWithAdminFlag | src/app/api/auth/me/route.ts:23-26 | the same responses as the route, the 200 body also carrying an `isAdmin` that holds iff `requireAdmin`'s rule admits the row |
| EventForm.TrimmedOrNull | src/app/events/new/page.tsx:131-134 | present iff the field is present and trims to non-empty text, which is then the value |
| EventForm.ValidateEvent | src/app/events/new/page.tsx:130-161 | a valid draft has the trimmed title of 1..120 characters, trimmed-or-null location and description, the parsed start, and an end present iff given, then the parse of the trimmed end text and strictly after the start |
| EventForm.ValidationOrder | src/app/events/new/page.tsx:136-161 | each error is reported iff every earlier check passed and its own check fails |
| EventForm.EndEqualToStartRejected | src/app/events/new/page.tsx:158-160 | an end equal to the start is rejected |
| Events.FindEvent | src/app/my-created-events/page.tsx:161 | a found index holds the id; none means no event has it |
| Events.Insert | src/app/my-created-events/page.tsx:29 | inserting into a sorted listing keeps it sorted and adds exactly that event |
| Events.SortListing | src/app/my-created-events/page.tsx:29 | published first, then by start ascending, and a permutation of the input |
| Events.OwnerListing | src/app/my-created-events/page.tsx:27-29 | sorted, only the admin's events, and a permutation of them |
| Events.OwnerListingComplete | src/app/my-created-events/page.tsx:27-29 | each event of the admin appears as often as it is stored, others never |
| Events.MyCreatedEventsPage | src/app/my-created-events/page.tsx:7-39 | login redirect iff `requireAdmin` redirects; denial iff not allowed or no user, with no listing; otherwise the owner listing |
| Events.SetPublished | src/app/my-created-events/page.tsx:164 | only the event with that id gets the flag; every other field and event is unchanged |
| Events.SetPublishedIdempotent | src/app/my-created-events/page.tsx:164 | setting the flag twice equals once, and setting the current value changes nothing |
| Events.RemoveEventExact | src/app/my-created-events/page.tsx:212 | deleting removes exactly the one event with that id and keeps all others; a missing id changes nothing |
| Events.RemovePreservesUnique | src/app/my-created-events/page.tsx:212 | deleting keeps ids unique |
| Events.CreatedNotListed | src/app/events/new/page.tsx:163-171 | a created event has no owner, so the contents of every admin's listing stay the same |
| Events.EventTable.Publish | src/app/my-created-events/page.tsx:148-170 | with an allowed admin, a non-empty id and an existing event of that admin, it is published; otherwise nothing changes |
| Events.EventTable.Unpublish | src/app/my-created-events/page.tsx:172-194 | the same guards; the event is unpublished |
| Events.EventTable.Delete | src/app/my-created-events/page.tsx:196-218 | the same guards; exactly that event is removed |
| Events.EventTable.CreateEvent | src/app/events/new/page.tsx:121-176 | unauthenticated: /login; a failing check: its error redirect, no row; otherwise exactly one published, ownerless row is appended and its page is the redirect |
| CalendarNav.Next | src/components/CalendarViewSwitcher.tsx:62-67 | the month after, with the month kept in 0..11 and the month index one higher |
| CalendarNav.Prev | src/components/CalendarViewSwitcher.tsx:52-57 | the month before, with the month kept in 0..11 and the month index one lower |
| CalendarNav.PrevNext | src/components/CalendarViewSwitcher.tsx:50-68 | one month forward then back (or back then forward) returns to the start |
| CalendarNav.MonthIndexInjective | src/components/CalendarViewSwitcher.tsx:47-48 | the month index determines year and month |
| CalendarNav.MonthNavigator.CanMoveByIndex | src/components/CalendarViewSwitcher.tsx:47-48 | `canPrev` holds iff the displayed month is after the minimum, `canNext` iff it is before the maximum |
| CalendarNav.MonthNavigator.GoPrev | src/components/CalendarViewSwitcher.tsx:50-58 | when allowed moves to the previous month, otherwise changes nothing; stays in the window and in 0..11 |
| CalendarNav.MonthNavigator.GoNext | src/components/CalendarViewSwitcher.tsx:60-68 | when allowed moves to the next month, otherwise changes nothing; stays in the window and in 0..11 |
| CalendarNav.MonthNavigator.MonthEvents | src/components/CalendarViewSwitcher.tsx:71-74 | exactly the events of the displayed year and month |
| CalendarNav.MonthNavigator.MonthEventsSnoc | src/components/CalendarViewSwitcher.tsx:71-74 | input order is kept: an event appended to the input is appended to the result exactly when it is in the displayed month |
| MonthGrid.DaysInMonth | src/components/CalendarMonthView.tsx:22 | 28..31 days; 29 iff February of a Gregorian leap year, 28 iff February otherwise |
| MonthGrid.YearLength | src/components/CalendarMonthView.tsx:22 | the month lengths add up to 365, or 366 in a leap year |
| MonthGrid.Cells | src/components/CalendarMonthView.tsx:40-42 | `startDow` blanks, then the days 1..n in order |
| MonthGrid.BuildCells | src/components/CalendarMonthView.tsx:40-42 | the two loops build exactly that grid |
| MonthGrid.DayCellPosition | src/components/CalendarMonthView.tsx:40-42 | each day has exactly one cell, in the column of its weekday |
| MonthGrid.GridFitsSixWeeks | src/components/CalendarMonthView.tsx:40-42 | a month fits in six rows and day 1 follows the blanks |
| MonthGrid.BucketByDay | src/components/CalendarMonthView.tsx:25-33 | a bucket exists iff the day has events of the displayed month, and holds exactly those in input order |
| MonthGrid.BucketsPartition | src/components/CalendarMonthView.tsx:25-33 | an event is in a day's bucket iff it is in the displayed month on that day |
| MonthGrid.ViewCell | src/components/CalendarMonthView.tsx:60-63 | shows the first min(count, 2) of the day's events; extra is count − 2, so "+N more" iff more than two; today as decided by `IsToday` |
| MonthGrid.MoreLabel | src/components/CalendarMonthView.tsx:89-93 | the label exists iff some events are hidden, and is "+", decimal digits without a leading zero whose value is the hidden count, and " more" |
| MonthGrid.TodayUnique | src/components/CalendarMonthView.tsx:35-37 | at most one cell is marked today |
| MonthGrid.TodayShown | src/components/CalendarMonthView.tsx:35-37 | some cell is marked today iff today is in the displayed month |
| ListView.FirstKeys | src/components/CalendarListView.tsx:26-35 | the date labels without repetition, exactly those of the events |
| ListView.GroupByKey | src/components/CalendarListView.tsx:26-35 | the loop builds keys in first-appearance order and, for each, the events with that label in input order |
| ListView.GroupsCoverAll | src/components/CalendarListView.tsx:26-35 | the group sizes add up to the number of events |
| ListView.GroupMembership | src/components/CalendarListView.tsx:26-35 | an event is in a group iff the group is its label's |
| ListView.RenderList | src/components/CalendarListView.tsx:19-39 | the empty message iff there are no events; otherwise one entry per label in first-appearance order with its group |
| ListView.Truncate | src/components/CalendarListView.tsx:66 | up to 120 characters unchanged; longer ones become their first 120 characters and "…" |
| FeedActions.ToggleRequest | src/components/FeedActionRow.tsx:56-58 | DELETE iff the action was active, POST otherwise |
| FeedActions.RequestsDistinct | src/components/FeedActionRow.tsx:56 | the three actions call distinct endpoints |
| FeedActions.FeedActionRow.constructor | src/components/FeedActionRow.tsx:30-38 | starts from the initial flags and counts, not loading, no modal |
| FeedActions.FeedActionRow.Begin | src/components/FeedActionRow.tsx:50-53 | loading starts, the flag flips and the count moves one towards it; others' contribution unchanged |
| FeedActions.FeedActionRow.Settle | src/components/FeedActionRow.tsx:59-68 | on failure the flag is set back and the count moved back; loading ends |
| FeedActions.FeedActionRow.Toggle | src/components/FeedActionRow.tsx:40-69 | a guest only gets the modal; otherwise the request is made, success keeps the flipped flag and count, failure restores both, loading ends; other actions and other users' contribution unchanged |
| BottomNav.Visible | src/components/BottomNav.tsx:46-48 | nothing for a visitor; otherwise an item is shown iff it is not admin-only or the viewer is admin |
| BottomNav.VisibleItems | src/components/BottomNav.tsx:15-21 | an admin sees all five items, anyone else all but "Created", in order |
| BottomNav.ActiveExtension | src/components/BottomNav.tsx:61 | a path extending an href activates it iff the extension is empty or starts with `/`, so "/homepage" does not activate "/home" |
| BottomNav.ActiveUnique | src/components/BottomNav.tsx:61 | on any path at most one item is active |
| BottomNav.NavState.OnMeReply | src/components/BottomNav.tsx:28-44 | after cleanup nothing changes; otherwise signed in iff an ok reply with a non-null body, `isAdmin` then being the body's top-level flag; a null body throws on `data.isAdmin` and signs out |
| BottomNav.CreatedNeverShown | src/components/BottomNav.tsx:38 | the route's body never sets `isAdmin`, so "Created" is hidden from everyone |
| BottomNav.CreatedShownToAdmins | src/components/BottomNav.tsx:38 | with the flag in the response, "Created" is shown exactly to users `requireAdmin` admits |

## Left out

- SHA-256, HMAC-SHA-256, base64url and JSON are parameters, not implementations. The laws the proofs use are stated as `Session.Lawful` and `Otp.Injective`, and the lemmas that need them require them.
- `randomInt`, `Date.now()`, `new Date()` and the database's fresh ids are parameters of the methods.
- `new Date(text)` is a parameter `string -> Option<int>` (NaN is `None`). `getFullYear`/`getMonth`/`getDate`, `getDay` and `toLocaleDateString` of an event are given as fields of `CalendarData.CalEvent`, and the grid's `startDow` and today's date are inputs. Time zones, the two-digit-year rule of `new Date(y, m, d)` and the locale time labels of the list are not modelled.
- The Prisma client is replaced by sequences. The tie order of `orderBy` between equal keys is left open (`FindNewest` picks the later row; the listing is specified up to permutation among equal keys).
- `OtpRoutes.AuthStore.VerifyOtp`: the transaction is one sequential step. The branch where the guarded update changes no row is kept in the code, but sequentially it cannot be taken. Concurrent requests, and the rate limit's overshoot under parallel requests, are not modelled.
- `requestOtpSchema` (zod) is a boolean on the request plus lowercasing of the email. `verifyOtpSchema` is imported by src/app/api/auth/verify-otp/route.ts:2, but src/lib/validation.ts exports only `requestOtpSchema` (:3-5), so its definition is not part of this model and its outcome is a boolean on the request; the verify route uses the email and code as given, with no lowercasing and no six-digit check.
- `process.env` values are fields of `OtpRoutes.Config` and parameters. A missing `SESSION_SECRET` (empty key) and `parseInt` producing NaN for the TTLs are not modelled; the TTLs are integers.
- Session payloads are typed: a parsed payload without a numeric `exp`, which the source would let through, is not modelled.
- String lengths are counted in characters, not UTF-16 code units. Case mapping is ASCII-only, where JavaScript maps all of Unicode.
- `requireAdmin` reads the user row a second time; the model reads the same table both times.
- Rendering, `revalidatePath`, `redirect` as an exception, `router.refresh()`, `console.log`/`console.error` and the calendar's month/list view toggle are not modelled.
- Users.NewStudent: the create data of src/app/api/auth/verify-otp/route.ts:77-84 does not set `isAdmin`, so the column default applies; the database schema is not part of this model, and that default is assumed to be false.
- `BottomNav.NavState.OnMeReply`: a body that fails to parse is `None` in the reply, rather than a rejected promise.
- `FeedActions.FeedActionRow.Toggle`: the request outcome is a boolean parameter. A second click while loading, disabled by the button, is not modelled.

## Findings

| source | as written | input that shows it | evidently intended | confidence | as-written member | corrected member |
|---|---|---|---|---|---|---|
| src/components/BottomNav.tsx:38 | `isAdmin` is read from a top-level `data.isAdmin`, but the `/api/auth/me` success body (src/app/api/auth/me/route.ts:23-26) is `{ ok, user: { id, email, role } }` | a signed-in admin (row flagged `isAdmin`) loads any page: the reply has no `isAdmin`, so the "Created" item is hidden | the admin-only item is shown to the users `requireAdmin` admits | high, not executed | BottomNav.CreatedNeverShown | BottomNav.CreatedShownToAdmins |
