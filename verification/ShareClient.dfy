/**
  `shareSecret` of the upload page and of the hero section: one POST to the
  share endpoint and a three-way classification of how it settles. The
  transport itself is abstract: the model receives the settled `fetch` as a
  `FetchOutcome` value.
*/
module ShareClient {
  import opened Wrappers
  import opened JsParseInt

  /** The two copies of the submission form; they differ only in the endpoint. */
  datatype FormVariant = UploadPage | HeroSection

  function ShareEndpoint(v: FormVariant): (url: string)
    ensures |url| > 0
  {
    match v
    case UploadPage => "https://keylock.onrender.com/api/share"
    case HeroSection => "http://localhost:3001/api/share"
  }

  /** The JSON body `{ secret, expire_minutes, max_views }` that is posted. */
  datatype ShareRequest = ShareRequest(secret: string, expireMinutes: int, maxViews: int)

  /**
    What `await response.json()` gives as far as `data.url` is concerned:
    either it throws (the body is not JSON, or it is JSON `null`) or it yields
    a value whose `url` property is a string or is absent.
  */
  datatype ParsedBody = Unreadable(reason: string) | Parsed(url: Option<string>)

  /** How the `fetch` call settles: rejected without a response, or answered. */
  datatype FetchOutcome =
    | NetworkError(reason: string)
    | Responded(status: int, bodyText: string, parsed: ParsedBody)

  /** `response.ok`: the status is in the range 200 to 299 (Fetch standard). */
  predicate IsOkStatus(status: int) {
    200 <= status <= 299
  }

  const RejectionPrefix: string := "Failed to share secret: "
  const NoUrlMessage: string := "No URL returned from backend"

  /** The message of the error thrown for a non-ok status. */
  function RejectionMessage(status: int, bodyText: string): string {
    RejectionPrefix + ShowInt(status) + " " + bodyText
  }

  /** The usable url an outcome carries, if any: an ok status and a truthy `data.url`. */
  predicate DeliversUrl(outcome: FetchOutcome) {
    && outcome.Responded?
    && IsOkStatus(outcome.status)
    && outcome.parsed.Parsed?
    && outcome.parsed.url.Some?
    && outcome.parsed.url.value != ""
  }

  /**
    `shareSecret`: resolves to the returned url, or rejects with the error
    message. A non-ok status rejects before the body is parsed; an ok status
    whose body has no truthy `url` rejects with `NoUrlMessage`.
  */
  function ShareSecret(outcome: FetchOutcome): (r: Result<string, string>)
    ensures r.Success? <==> DeliversUrl(outcome)
    ensures r.Success? ==> r.value == outcome.parsed.url.value && r.value != ""
    ensures outcome.Responded? && !IsOkStatus(outcome.status) ==>
              r == Failure(RejectionMessage(outcome.status, outcome.bodyText))
    ensures outcome.Responded? && IsOkStatus(outcome.status) && outcome.parsed.Parsed? && !DeliversUrl(outcome) ==>
              r == Failure(NoUrlMessage)
  {
    match outcome
    case NetworkError(reason) => Failure(reason)
    case Responded(status, bodyText, parsed) =>
      if !IsOkStatus(status) then Failure(RejectionMessage(status, bodyText))
      else
        match parsed
        case Unreadable(reason) => Failure(reason)
        case Parsed(url) =>
          if url.None? || url.value == "" then Failure(NoUrlMessage) else Success(url.value)
  }

  /**
    The rejection message carries both the status and the server's body text:
    it starts with the fixed prefix, `parseInt` of what follows gives back the
    status, and it ends with the body text verbatim.
  */
  lemma RejectionMessageCarriesStatusAndBody(status: int, bodyText: string)
    ensures var m := RejectionMessage(status, bodyText);
      && |RejectionPrefix| <= |m|
      && m[..|RejectionPrefix|] == RejectionPrefix
      && ParseInt(m[|RejectionPrefix|..]) == Some(status)
      && m[|m| - |bodyText|..] == bodyText
  {
    var m := RejectionMessage(status, bodyText);
    var tail := ShowInt(status) + " " + bodyText;
    assert m == RejectionPrefix + tail;
    assert m[|RejectionPrefix|..] == tail;
    assert tail == ShowInt(status) + (" " + bodyText);
    assert !IsDigit(' ', 10);
    ParseIntOfShowInt(status, " " + bodyText);
  }
}
