# KeyLock, modelled in Dafny

KeyLock shares a one-time secret through a link. A browser form posts the
secret. The backend encrypts it and files it under a fresh id with an
expiry instant and a view limit. Every read of the link counts one view.
A read of an expired or used-up secret deletes the row, and a periodic
job sweeps expired rows.

This project models three sequential cores of that system as pure
functions over immutable data and proves properties about them.

- **The submission form.** The upload page and the hero section carry
  the same form, posting to different endpoints. The model covers:
  - the blank-message guard (`String.prototype.trim`);
  - the `parseInt(x) || default` normalisation of the two number boxes,
    over a model of ECMAScript `parseInt` (section 19.2.5 of ECMA-262);
  - the three-way classification of the share response in `shareSecret`;
  - the flags `isLoading`, `shareableUrl` and `showModal`, including an
    event trace showing that at most one request is ever in flight.
- **The share-link modal.** The `copied` acknowledgement runs on a
  simulated millisecond clock with a list of pending 2000 ms timers.
  Which clicks reach `onClose` is modelled too.
- **The backend.**
  - The secret store is a map from id to row.
  - `share_secret`, `get_secret`, `cleanup_expired_records`,
    `calculate_expiry` and the `AppError` to HTTP mapping are modelled.
  - Lemmas prove the read budget (at most `max_views` successful reads),
    the share-then-read round trip, and that the sweep agrees with reads.
  - The clock, the id generator, the cipher and base64 are parameters:
    instants are integers in nanoseconds, and `Services` holds the cipher
    and base64 operations.

Files, in dependency order:
- `Wrappers.dfy`: `Option` and `Result`.
- `JsString.dfy`: StrWhiteSpaceChar and trimming.
- `JsParseInt.dfy`: `parseInt`.
- `ShareClient.dfy`: `shareSecret`.
- `SubmissionForm.dfy`: the form handler and its flags.
- `ShareLinkModal.dfy`: the modal.
- `Models.dfy`: rows, requests, the store and the services.
- `AppErrors.dfy`: `AppError` and its HTTP response.
- `Utils.dfy`: `calculate_expiry`.
- `Share.dfy`: `share_secret`.
- `Retrieve.dfy`: `get_secret`.
- `Cleanup.dfy`: `cleanup_expired_records`.
- `Lifecycle.dfy`: the backend over time, and where the form meets the backend.

Behaviours of the code worth knowing before reading the contracts:
- **Negative numbers pass the form.** `parseInt(x) || d` replaces only NaN
  and 0, so "-5" is sent as -5. The backend stores it: negative minutes give
  a row that is already expired, and a negative view limit gives a row that
  can never be read.
- **A second copy does not restart the window.** Each copy schedules its
  own 2000 ms timer and none is cleared, so the `copied` flag drops 2000 ms
  after the first copy, not after the last one.
- **The message is sent untrimmed.** The trim only guards against a blank
  message; the original text, surrounding white space included, is posted.
- **`parseInt` reads hex, but the form never hands it hex.** With no radix,
  `parseInt` reads a "0x" prefix as hexadecimal. The two boxes are
  `<input type="number">` fields, though, and the browser gives the handler
  "" for any text that is not a valid floating-point number, so "0x1A" or
  "12abc" in a box reaches the backend as the default. The lemmas about such
  strings are facts about `parseInt` itself.

## Model

| member | source | states |
|---|---|---|
| JsString.TrimEmptyIffBlank | frontend/app/upload/page.tsx:154 | `!secretMessage.trim()` holds exactly when every character of the message is ECMAScript white space, the empty message included |
| JsParseInt.ParseIntOfShowInt | frontend/app/upload/page.tsx:159-160 | `parseInt` gives back every integer from its decimal numeral, with a '-' when negative, whatever non-digit text follows it |
| JsParseInt.ParseIntSkipsLeadingWhiteSpace | frontend/app/upload/page.tsx:159-160 | leading white space never changes what `parseInt` reads |
| JsParseInt.ParseIntWithoutDigitsIsNaN | frontend/app/upload/page.tsx:159-160 | text that starts with no white space, sign or digit reads as NaN, and so does the empty box |
| JsParseInt.ParseIntOfNumericPrefix | frontend/app/upload/page.tsx:159 | `parseInt("12abc")` is 12: only the numeric prefix counts (a fact about `parseInt`; a number box never delivers such text) |
| JsParseInt.ParseIntOfDecimal | frontend/app/upload/page.tsx:159 | "3.9" reads as 3: the decimal point ends the number |
| JsParseInt.ParseIntOfNonNumeric | frontend/app/upload/page.tsx:159 | "abc" and "" read as NaN |
| JsParseInt.ParseIntOfHexPrefix | frontend/app/upload/page.tsx:159 | `parseInt("0x1A")` is 26: a "0x" prefix switches to radix 16 (a fact about `parseInt`; a number box never delivers such text) |
| JsParseInt.ParseIntOfBareHexPrefix | frontend/app/upload/page.tsx:159 | "0x" alone is NaN, because the prefix is stripped before digits are read |
| SubmissionForm.ParseOr | frontend/app/upload/page.tsx:159-160 | the normalised value is the default exactly when `parseInt` gives NaN, 0 or the default itself; otherwise it is the parsed integer, negative or not |
| SubmissionForm.ParseOrKeepsNonZero | frontend/app/upload/page.tsx:159 | a fact about the normaliser, not about what a number box can hold: the numeral of any non-zero integer, negative ones included and whatever non-digit text follows it, normalises to that integer itself rather than being replaced by the default |
| SubmissionForm.ParseOrFallsBack | frontend/app/upload/page.tsx:159-160 | "0", an empty box and "abc" all give the default |
| SubmissionForm.ParseOrNeverZero | frontend/app/upload/page.tsx:159-160 | with a non-zero default the value sent is never 0 |
| SubmissionForm.Submit | frontend/app/upload/page.tsx:153-172 | a disabled button does nothing; a blank message raises the alert and changes nothing; otherwise `isLoading` turns true and one POST goes to the variant's endpoint, carrying the untrimmed message and both normalised numbers |
| SubmissionForm.VariantsDifferOnlyInEndpoint | frontend/app/components/Hero.tsx:154-183 | the hero section's handler makes the same page change and sends the same body as the upload page's, to a different endpoint |
| SubmissionForm.Settle | frontend/app/upload/page.tsx:172-181 | after the request settles `isLoading` is false; success stores the url and opens the modal; failure alerts and leaves both unchanged |
| SubmissionForm.CloseModal | frontend/app/upload/page.tsx:184-187 | closing hides the modal, clears the url and changes nothing else |
| SubmissionForm.SubmissionReturnsToIdle | frontend/app/upload/page.tsx:153-187 | submit, settle and close bring an idle form back to where it started; the modal opens exactly on success |
| SubmissionForm.HelloScenario | frontend/app/upload/page.tsx:153-175 | "hello" with "10" and "3" posts exactly `{secret: "hello", expire_minutes: 10, max_views: 3}`, and success leaves the modal open on the returned url |
| SubmissionForm.DefaultsScenario | frontend/app/components/Hero.tsx:160-161 | an empty expiry box and views "abc" send the defaults 10 and 3 |
| SubmissionForm.AtMostOneRequestInFlight | frontend/app/upload/page.tsx:356-366 | over any sequence of edits, clicks, answers and closes, at most one request is pending, and the button is disabled exactly while one is |
| SubmissionForm.FreshPageHasNoRequest | frontend/app/upload/page.tsx:146-151 | from the initial state the one-request invariant holds for every event sequence |
| ShareClient.ShareSecret | frontend/app/upload/page.tsx:97-143 | resolves exactly when the status is 2xx and the body has a non-empty `url`, which is then the result; a non-2xx status rejects with the status-and-body message; a 2xx status with no usable url rejects with "No URL returned from backend" |
| ShareClient.RejectionMessageCarriesStatusAndBody | frontend/app/upload/page.tsx:122-128 | the rejection message starts with its fixed prefix, `parseInt` of what follows gives back the status, and it ends with the body text |
| ShareLinkModal.Mount | frontend/app/components/ShareLinkModal.tsx:103 | a fresh modal has `copied` false and no timer |
| ShareLinkModal.ButtonLabel | frontend/app/components/ShareLinkModal.tsx:224 | the label is "✓ Copied!" exactly when `copied` is true, and "📋 Copy Link" otherwise |
| ShareLinkModal.CopyToClipboard | frontend/app/components/ShareLinkModal.tsx:105-113 | a successful write raises `copied` and adds one timer due 2000 ms later, keeping earlier ones; a rejected write changes nothing |
| ShareLinkModal.Advance | frontend/app/components/ShareLinkModal.tsx:109 | as time passes, `copied` stays up exactly when no pending timer has come due; the timers still pending are exactly those due after the new clock, none cleared early, and they stay within the 2000 ms window |
| ShareLinkModal.AcknowledgementClearsWithinWindow | frontend/app/components/ShareLinkModal.tsx:109 | whatever happened before, a raised flag is down 2000 ms later |
| ShareLinkModal.SingleCopyLastsTwoSeconds | frontend/app/components/ShareLinkModal.tsx:107-109 | one copy shows "Copied" for 1999 ms and clears at 2000 ms |
| ShareLinkModal.SecondCopyDoesNotRestartWindow | frontend/app/components/ShareLinkModal.tsx:109 | a second copy d ms after the first does not extend the window: the flag drops 2000 ms after the first copy while the second timer is still pending |
| ShareLinkModal.ClickWiring | frontend/app/components/ShareLinkModal.tsx:122-227 | the backdrop, the X button and the Done button each call `onClose` exactly once; the copy button only copies; other clicks in the panel do nothing |
| ShareLinkModal.ClickModal | frontend/app/components/ShareLinkModal.tsx:122-130 | a closing click unmounts the modal and runs the page's `closeModal`; the copy button copies; other clicks change nothing |
| ShareLinkModal.ModalShowsAndCopiesTheLink | frontend/app/upload/page.tsx:393 | the modal shows and copies exactly the url the form received, and starts with `copied` false |
| Lifecycle.ReceivedRequest | backend/src/db/models.rs:28-33 | the posted body deserialises exactly when both numbers fit `i32`, and then it carries the same secret and numbers |
| AppErrors.IntoResponse | backend/src/error.rs:13-21 | NotFound gives 404 with "Not Found"; Internal gives 500 with its own message; the body always has exactly the one key `error` |
| AppErrors.IntoResponseIsInjective | backend/src/error.rs:15-19 | different errors never give the same response |
| AppErrors.InternalBodyIsNotDisplay | backend/src/error.rs:9-17 | an internal error's body is its message, not its Display text |
| Utils.CalculateExpiry | backend/src/utils.rs:10-12 | the expiry lies a whole number of minutes from `now`, and that number is the one given, or 60 when none is |
| Utils.DefaultIsSixtyMinutes | backend/src/utils.rs:11 | no minutes means 60 minutes |
| Utils.ExpiryIsMonotone | backend/src/utils.rs:11 | more minutes never give an earlier expiry |
| Utils.NonPositiveMinutes | backend/src/utils.rs:11 | negative minutes give an expiry before `now`, and zero gives `now` |
| Share.SecretUrl | backend/src/routes/share.rs:40 | the link is the fixed prefix followed by the id |
| Share.ShareSecret | backend/src/routes/share.rs:11-44 | succeeds exactly when sealing succeeds and the id is new, and every failure is Internal; on success exactly one row is added under the id, other rows are untouched, and the stored and returned `max_views` (default 1) and expiry agree |
| Share.ShareKeepsStoreKeyed | backend/src/routes/share.rs:23-36 | every row stays filed under its own id |
| Retrieve.CountView | backend/src/routes/retrieve.rs:60-61 | a view adds exactly one to `view_count`, never beyond `max_views`, and changes no other field |
| Retrieve.GetSecret | backend/src/routes/retrieve.rs:14-71 | an unknown id gives NotFound; an expired or used-up row is deleted with NotFound; a failed decryption gives Internal and changes nothing; otherwise it reveals the plaintext, counts one view and reports `max_views - (view_count + 1) >= 0`; other rows are never touched |
| Retrieve.ServedAtExpiryInstant | backend/src/routes/retrieve.rs:32 | at the expiry instant itself the row is still served |
| Retrieve.ExpiredRejectedDespiteViewsLeft | backend/src/routes/retrieve.rs:32-47 | expiry is checked first: an expired row is rejected and deleted even with views left |
| Retrieve.RemainingViewsFitI32 | backend/src/routes/retrieve.rs:65 | the reported remaining views lie between 0 and `max_views`, so they fit `i32` |
| Retrieve.GetKeepsStoreKeyed | backend/src/routes/retrieve.rs:60-63 | every row stays filed under its own id |
| Cleanup.Sweep | backend/src/db/cleanup.rs:12 | exactly the rows with `expires_at < now` are removed, and the others are kept unchanged |
| Cleanup.CleanupExpiredRecords | backend/src/db/cleanup.rs:6-21 | the logged count is the number of rows removed; a failing delete is logged and changes nothing |
| Cleanup.SweptRowsAreRejectedByReads | backend/src/db/cleanup.rs:12 | a row is swept exactly when a read at the same instant would reject it as expired, and then that read deletes it |
| Cleanup.CleanupIsIdempotent | backend/src/db/cleanup.rs:12 | a second sweep at the same instant removes nothing |
| Cleanup.CleanupCommutesWithReads | backend/src/db/cleanup.rs:12 | sweeping before a read gives the same answer, and the same store, as sweeping after it |
| Lifecycle.StepSpendsViews | backend/src/routes/retrieve.rs:41-63 | no operation adds to a row's views left, and a successful read uses one up |
| Lifecycle.ReadsWithinViewsLeft | backend/src/routes/retrieve.rs:41-61 | over any run of shares, reads and sweeps, the successful reads of a row are at most its views left |
| Lifecycle.SharedSecretReadAtMostMaxViews | backend/src/routes/share.rs:28 | a shared secret is read at most `max_views` times, and never when `max_views <= 0` |
| Lifecycle.ShareThenGetRevealsSecret | backend/src/routes/retrieve.rs:49-57 | if the cipher and base64 round-trip, a secret read by its expiry comes back verbatim with `max_views - 1` views left |
| Lifecycle.NegativeMinutesNeverServed | backend/src/utils.rs:11 | a secret shared with negative minutes is never served |
| Lifecycle.FormAcceptsShareResponse | backend/src/routes/share.rs:38-43 | the form accepts the link from a successful share's answer |
| Lifecycle.FormRejectsErrorResponse | backend/src/error.rs:15-19 | every backend error reaches the form as a rejection whose message carries the 404 or 500 |
| Lifecycle.TypedNegativeExpiryIsDeadOnArrival | frontend/app/upload/page.tsx:159 | a negative expiry typed into the form is sent as typed, and the stored secret can never be read |

## Left out

- `MovingBorder`, `customcursor.tsx`, the `howitworks.tsx` counter, `layout.tsx`, `navbar.tsx`, `footer.tsx`: animation, DOM listeners and static markup with no decision logic.
- `crypto/aes_gcm.rs`: encryption and decryption are oracles in `Services` that may fail. Their round trip is the `CipherRoundTrips` hypothesis, not a proof about AES-GCM.
- Base64 in `share_secret` and `get_secret`: also an oracle. Its round trip (section 4 of RFC 4648) is the `Base64RoundTrips` hypothesis.
- `generate_id`: the new id is a parameter. UUIDv4 uniqueness is only probabilistic.
  - Inserting an id that is already present fails with an Internal error.
  - Its message is the oracle field `duplicateIdError`, because the database driver's text is not visible.
- `Utc::now()`: the instant is a parameter. PostgreSQL's microsecond truncation of stored timestamps is not modelled.
- The fresh row's `view_count` 0 and `created_at` = now are taken to be column defaults. The generated `schema.rs` lists columns but not their defaults, which live in the database migrations; the migrations are not part of this model.
- Database failures other than a duplicate id are not modelled: a lost connection, a panicking lock, or the view-count UPDATE failing (backend/src/routes/retrieve.rs:60-63). They depend on the environment, not on the inputs.
- `cleanup_expired_records`: its database error is a parameter. A panic inside `spawn_blocking` is not modelled.
- `main.rs`, `config.rs`, the connection pool, the Mutex, CORS and the cron schedule: wiring. The store is one map changed by one operation at a time.
- `fetch`, `alert` and `console` logging: the settled fetch is a `FetchOutcome` value, and alerts are effects.
- The redemption page under `frontend/app/secret/` is not part of this model.
- JsParseInt.ParseInt: reads into unbounded integers. Doubles lose precision above 2^53 and overflow to Infinity; neither is modelled, because the inputs the form cares about are small.
- JsParseInt.ParseInt: reads Unicode scalar values, where JavaScript uses UTF-16 code units. This matters only for characters outside the Basic Multilingual Plane, which are never white space or digits.
- Lifecycle.ReceivedRequest: a body with a number outside `i32` is a deserialisation failure. axum's 422 response to it is not modelled.
- SubmissionForm.Next: accepts any text in the two number boxes, a superset of what the browser delivers. An `<input type="number">` field (frontend/app/upload/page.tsx:324,342; frontend/app/components/Hero.tsx:268,280) yields "" unless its text is a valid floating-point number, so hex and trailing-junk inputs are never seen; the model does not restrict the box contents to that set.
- ShareClient.ShareSecret: the message of a network error or an unreadable body is passed through as given.
