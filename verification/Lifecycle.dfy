/**
  The backend over time, one request or job at a time, and the places where
  the frontend and the backend meet: what the form sends becomes a row, and
  what the backend answers is what the form classifies.
*/
module Lifecycle {
  import opened Wrappers
  import opened Models
  import opened AppErrors
  import opened Utils
  import opened Share
  import opened Retrieve
  import opened Cleanup
  import ShareClient
  import JsParseInt
  import JsString
  import SubmissionForm

  /** One request or job, each carrying the instant it runs at. */
  datatype Operation =
    | ShareOp(now: int, newId: string, request: ShareRequest)
    | GetOp(now: int, id: string)
    | CleanupOp(now: int, dbError: Option<string>)

  /** The store after one operation; a failed share leaves it as it was. */
  function Apply(store: Store, op: Operation, env: Services): Store {
    match op
    case ShareOp(now, newId, request) =>
      var r := ShareSecret(store, now, newId, request, env);
      if r.Success? then r.value.0 else store
    case GetOp(now, id) => GetSecret(store, now, id, env).store
    case CleanupOp(now, dbError) => CleanupExpiredRecords(store, now, dbError).0
  }

  /** The operation is a read of `target` that answers with the secret. */
  predicate ReadsTarget(store: Store, op: Operation, target: string, env: Services) {
    op.GetOp? && op.id == target && GetSecret(store, op.now, target, env).result.Success?
  }

  /** How many of `ops`, run in order from `store`, successfully read `target`. */
  function SuccessfulReads(store: Store, ops: seq<Operation>, target: string, env: Services): nat
    decreases |ops|
  {
    if ops == [] then 0
    else
      (if ReadsTarget(store, ops[0], target, env) then 1 else 0)
      + SuccessfulReads(Apply(store, ops[0], env), ops[1..], target, env)
  }

  /** The reads `target`'s row has left: `max_views - view_count`, or none. */
  function ViewsLeft(store: Store, target: string): nat {
    if target in store && store[target].viewCount < store[target].maxViews
    then store[target].maxViews - store[target].viewCount
    else 0
  }

  /** One operation never adds to the views left and a successful read uses one up. */
  lemma StepSpendsViews(store: Store, op: Operation, target: string, env: Services)
    requires !(op.ShareOp? && op.newId == target)
    ensures ViewsLeft(Apply(store, op, env), target) + (if ReadsTarget(store, op, target, env) then 1 else 0)
            <= ViewsLeft(store, target)
  {
  }

  /**
    Over any sequence of requests and jobs that does not file a new secret
    under the same id, the successful reads of a row number at most the
    views it has left.
  */
  lemma {:induction false} ReadsWithinViewsLeft(store: Store, ops: seq<Operation>, target: string, env: Services)
    requires forall i :: 0 <= i < |ops| ==> !(ops[i].ShareOp? && ops[i].newId == target)
    ensures SuccessfulReads(store, ops, target, env) <= ViewsLeft(store, target)
    decreases |ops|
  {
    if ops != [] {
      StepSpendsViews(store, ops[0], target, env);
      ReadsWithinViewsLeft(Apply(store, ops[0], env), ops[1..], target, env);
    }
  }

  /**
    A freshly shared secret is read successfully at most `max_views` times,
    and never when `max_views` is zero or negative.
  */
  lemma SharedSecretReadAtMostMaxViews(
    store: Store, now: int, newId: string, request: ShareRequest, env: Services, ops: seq<Operation>)
    requires ShareSecret(store, now, newId, request, env).Success?
    requires forall i :: 0 <= i < |ops| ==> !(ops[i].ShareOp? && ops[i].newId == newId)
    ensures var (after, resp) := ShareSecret(store, now, newId, request, env).value;
      && SuccessfulReads(after, ops, newId, env) <= if resp.maxViews > 0 then resp.maxViews else 0
  {
    var after := ShareSecret(store, now, newId, request, env).value.0;
    ReadsWithinViewsLeft(after, ops, newId, env);
  }

  /** The cipher gives back what it sealed. */
  ghost predicate CipherRoundTrips(env: Services) {
    forall text :: env.encrypt(text).Success? ==>
      env.decrypt(env.encrypt(text).value.0, env.encrypt(text).value.1) == Success(text)
  }

  /** Re-encoding decoded base64 gives back the text (section 4 of RFC 4648, canonical padding). */
  ghost predicate Base64RoundTrips(env: Services) {
    forall text :: env.decodeBase64(text).Success? ==>
      env.encodeBase64(env.decodeBase64(text).value) == text
  }

  /**
    Round trip: a secret shared at `now` and read through its id no later
    than its expiry comes back verbatim, with `max_views - 1` views left,
    provided `max_views` is at least one.
  */
  lemma ShareThenGetRevealsSecret(
    store: Store, now: int, newId: string, request: ShareRequest, env: Services, later: int)
    requires CipherRoundTrips(env) && Base64RoundTrips(env)
    requires ShareSecret(store, now, newId, request, env).Success?
    requires request.maxViews.GetOr(DefaultMaxViews) >= 1
    requires later <= CalculateExpiry(now, request.expireMinutes)
    ensures var (after, resp) := ShareSecret(store, now, newId, request, env).value;
      GetSecret(after, later, newId, env).result == Success(Revealed(request.secret, resp.maxViews - 1))
  {
    var (after, resp) := ShareSecret(store, now, newId, request, env).value;
    var (ct, nonce) := env.encrypt(request.secret).value;
    assert env.encodeBase64(after[newId].ciphertext) == ct;
    assert env.encodeBase64(after[newId].nonce) == nonce;
  }

  /**
    A secret shared with negative minutes, as the form sends when "-5" is
    typed, is expired on arrival: every later read answers NotFound.
  */
  lemma NegativeMinutesNeverServed(
    store: Store, now: int, newId: string, m: i32, maxViews: Option<i32>, secret: string, env: Services, later: int)
    requires m < 0 && later >= now
    requires ShareSecret(store, now, newId, ShareRequest(secret, Some(m), maxViews), env).Success?
    ensures var after := ShareSecret(store, now, newId, ShareRequest(secret, Some(m), maxViews), env).value.0;
      GetSecret(after, later, newId, env).result == Failure(NotFound)
  {
    NonPositiveMinutes(now, m);
  }

  /**
    The body the form posts, as the backend reads it: both numbers are sent,
    so neither backend default applies; numbers beyond `i32` fail to
    deserialize and give no request.
  */
  function ReceivedRequest(sent: ShareClient.ShareRequest): (r: Option<ShareRequest>)
    ensures r.Some? <==> FitsI32(sent.expireMinutes) && FitsI32(sent.maxViews)
    ensures r.Some? ==>
      && r.value.secret == sent.secret
      && r.value.expireMinutes == Some(sent.expireMinutes)
      && r.value.maxViews == Some(sent.maxViews)
  {
    if FitsI32(sent.expireMinutes) && FitsI32(sent.maxViews)
    then Some(ShareRequest(sent.secret, Some(sent.expireMinutes as i32), Some(sent.maxViews as i32)))
    else None
  }

  /**
    The form accepts the backend's answer: a successful share, answered with
    status 200 and its JSON body, makes `shareSecret` resolve to the row's link.
  */
  lemma FormAcceptsShareResponse(
    store: Store, now: int, newId: string, request: ShareRequest, env: Services, bodyText: string)
    requires ShareSecret(store, now, newId, request, env).Success?
    ensures var resp := ShareSecret(store, now, newId, request, env).value.1;
      ShareClient.ShareSecret(ShareClient.Responded(200, bodyText, ShareClient.Parsed(Some(resp.url))))
        == Success(SecretUrl(newId))
  {
  }

  /**
    The form rejects every backend error: its 404 or 500 reaches
    `shareSecret` as a rejection whose message carries the status.
  */
  lemma FormRejectsErrorResponse(e: AppError, bodyText: string, parsed: ShareClient.ParsedBody)
    ensures var status := IntoResponse(e).status;
      var r := ShareClient.ShareSecret(ShareClient.Responded(status, bodyText, parsed));
      && r == Failure(ShareClient.RejectionMessage(status, bodyText))
      && JsParseInt.ParseInt(r.error[|ShareClient.RejectionPrefix|..]) == Some(status)
  {
    ShareClient.RejectionMessageCarriesStatusAndBody(IntoResponse(e).status, bodyText);
  }

  /**
    End to end: a negative number typed into the expiry box passes the form's
    normalisation unchanged, is stored as an expiry in the past, and the link
    the form then shows can never be redeemed.
  */
  lemma TypedNegativeExpiryIsDeadOnArrival(
    v: ShareClient.FormVariant, p: SubmissionForm.Page, n: int,
    store: Store, now: int, newId: string, env: Services, later: int)
    requires !p.isLoading && !JsString.IsBlank(p.secretMessage)
    requires n < 0 && p.expiryMinutes == JsParseInt.ShowInt(n)
    requires var sent := SubmissionForm.Submit(v, p).effect.request;
      && ReceivedRequest(sent).Some?
      && ShareSecret(store, now, newId, ReceivedRequest(sent).value, env).Success?
    requires later >= now
    ensures var sent := SubmissionForm.Submit(v, p).effect.request;
      var after := ShareSecret(store, now, newId, ReceivedRequest(sent).value, env).value.0;
      && sent.expireMinutes == n
      && GetSecret(after, later, newId, env).result == Failure(NotFound)
  {
    var sent := SubmissionForm.Submit(v, p).effect.request;
    SentExpiryIsTyped(v, p, n);
    var request := ReceivedRequest(sent).value;
    assert request.expireMinutes == Some(n as i32);
    NegativeMinutesNeverServed(store, now, newId, n as i32, request.maxViews, request.secret, env, later);
  }

  /** The form sends a typed negative expiry as it is. */
  lemma SentExpiryIsTyped(v: ShareClient.FormVariant, p: SubmissionForm.Page, n: int)
    requires !p.isLoading && !JsString.IsBlank(p.secretMessage)
    requires n < 0 && p.expiryMinutes == JsParseInt.ShowInt(n)
    ensures SubmissionForm.Submit(v, p).effect.Post?
    ensures SubmissionForm.Submit(v, p).effect.request.expireMinutes == n
  {
    assert JsParseInt.ShowInt(n) + "" == p.expiryMinutes;
    SubmissionForm.ParseOrKeepsNonZero(n, "", SubmissionForm.DefaultExpiryMinutes);
  }
}
