/**
  The submission form shared by the upload page and the hero section: the
  blank-message guard, the `parseInt(x) || default` normalisation of the two
  number boxes, and the flags `isLoading`, `shareableUrl` and `showModal` as
  the click, the settled request and the modal's close button change them.
*/
module SubmissionForm {
  import opened Wrappers
  import opened JsString
  import opened JsParseInt
  import opened ShareClient

  const DefaultExpiryMinutes: int := 10
  const DefaultMaxViews: int := 3

  /**
    `parseInt(text) || fallback`: NaN and zero (also negative zero) are falsy
    and give way to `fallback`; every other integer is kept, negative ones
    included.
  */
  function ParseOr(text: string, fallback: int): (r: int)
    ensures r == fallback <==> ParseInt(text) == None || ParseInt(text) == Some(0) || ParseInt(text) == Some(fallback)
    ensures r != fallback ==> ParseInt(text) == Some(r)
  {
    match ParseInt(text)
    case None => fallback
    case Some(n) => if n == 0 then fallback else n
  }

  /** Whenever `parseInt` reads a non-zero integer, negative or followed by non-digits, the normaliser passes it through unchanged. */
  lemma ParseOrKeepsNonZero(n: int, rest: string, fallback: int)
    requires n != 0 && EndsNumeral(n, rest)
    ensures ParseOr(ShowInt(n) + rest, fallback) == n
  {
    ParseIntOfShowInt(n, rest);
  }

  /** "0", an empty box and non-numeric text all fall back to the default. */
  lemma ParseOrFallsBack(fallback: int)
    ensures ParseOr("0", fallback) == fallback
    ensures ParseOr("", fallback) == fallback
    ensures ParseOr("abc", fallback) == fallback
  {
    assert ShowInt(0) == "0";
    ParseIntOfShowInt(0, "");
    assert "0" + "" == "0";
    ParseIntOfNonNumeric();
  }

  /** With a non-zero default the normalised value is never zero, but it may be negative. */
  lemma ParseOrNeverZero(text: string, fallback: int)
    requires fallback != 0
    ensures ParseOr(text, fallback) != 0
  {
  }

  /** The form's state: the three text boxes and the three flags. */
  datatype Page = Page(
    secretMessage: string,
    expiryMinutes: string,
    maxViews: string,
    isLoading: bool,
    shareableUrl: string,
    showModal: bool)

  /** Every `useState` initial value. */
  const InitialPage: Page := Page("", "", "", false, "", false)

  /** What a transition asks of the outside world. */
  datatype Effect = NoEffect | Alert(text: string) | Post(endpoint: string, request: ShareRequest)

  datatype Transition = Transition(page: Page, effect: Effect)

  const BlankAlert: string := "Please enter a secret message"
  const FailureAlert: string := "Failed to create shareable link"

  /** The submit button carries `disabled={isLoading}`. */
  predicate SubmitDisabled(p: Page) {
    p.isLoading
  }

  /**
    A click on the submit button: nothing while it is disabled; otherwise
    `handleGetShareableLink` up to its `await`. A blank message raises an
    alert and changes nothing; any other message is posted as typed (the trim
    only guards) with both numbers normalised, and `isLoading` becomes true.
  */
  function Submit(v: FormVariant, p: Page): (t: Transition)
    ensures SubmitDisabled(p) ==> t == Transition(p, NoEffect)
    ensures !SubmitDisabled(p) && IsBlank(p.secretMessage) ==> t == Transition(p, Alert(BlankAlert))
    ensures !SubmitDisabled(p) && !IsBlank(p.secretMessage) ==>
      && t.page == p.(isLoading := true)
      && t.effect.Post?
      && t.effect.endpoint == ShareEndpoint(v)
      && t.effect.request.secret == p.secretMessage
      && t.effect.request.expireMinutes == ParseOr(p.expiryMinutes, DefaultExpiryMinutes)
      && t.effect.request.maxViews == ParseOr(p.maxViews, DefaultMaxViews)
  {
    TrimEmptyIffBlank(p.secretMessage);
    if p.isLoading then Transition(p, NoEffect)
    else if Trim(p.secretMessage) == "" then Transition(p, Alert(BlankAlert))
    else
      var request := ShareRequest(
        p.secretMessage,
        ParseOr(p.expiryMinutes, DefaultExpiryMinutes),
        ParseOr(p.maxViews, DefaultMaxViews));
      Transition(p.(isLoading := true), Post(ShareEndpoint(v), request))
  }

  /**
    The hero section's handler is the upload page's with another endpoint:
    same guard, same flags, same body, and the two endpoints differ.
  */
  lemma VariantsDifferOnlyInEndpoint(p: Page)
    ensures Submit(HeroSection, p).page == Submit(UploadPage, p).page
    ensures Submit(UploadPage, p).effect.Post? <==> Submit(HeroSection, p).effect.Post?
    ensures Submit(UploadPage, p).effect.Post? ==>
      && Submit(HeroSection, p).effect.request == Submit(UploadPage, p).effect.request
      && Submit(HeroSection, p).effect.endpoint != Submit(UploadPage, p).effect.endpoint
    ensures !Submit(UploadPage, p).effect.Post? ==> Submit(HeroSection, p) == Submit(UploadPage, p)
  {
    assert |ShareEndpoint(HeroSection)| != |ShareEndpoint(UploadPage)|;
  }

  /**
    The rest of `handleGetShareableLink` once `shareSecret` settles: on
    success the url is stored and the modal opened, on failure an alert is
    raised and neither changes; `isLoading` is false either way (`finally`).
  */
  function Settle(p: Page, outcome: Result<string, string>): (t: Transition)
    ensures !t.page.isLoading && !SubmitDisabled(t.page)
    ensures t.page.secretMessage == p.secretMessage
    ensures t.page.expiryMinutes == p.expiryMinutes && t.page.maxViews == p.maxViews
    ensures outcome.Success? ==>
      t.page.shareableUrl == outcome.value && t.page.showModal && t.effect == NoEffect
    ensures outcome.Failure? ==>
      t.page.shareableUrl == p.shareableUrl && t.page.showModal == p.showModal && t.effect == Alert(FailureAlert)
  {
    match outcome
    case Success(url) => Transition(p.(shareableUrl := url, showModal := true, isLoading := false), NoEffect)
    case Failure(_) => Transition(p.(isLoading := false), Alert(FailureAlert))
  }

  /** `closeModal`, the modal's `onClose`: hides the modal and forgets the url. */
  function CloseModal(p: Page): (q: Page)
    ensures !q.showModal && q.shareableUrl == ""
    ensures q.(showModal := p.showModal, shareableUrl := p.shareableUrl) == p
  {
    p.(showModal := false, shareableUrl := "")
  }

  /**
    One whole submission from an idle form with the modal closed: click,
    settle, close. `isLoading` is raised exactly for the duration of the
    request, and the flags end where they started whatever the outcome.
  */
  lemma SubmissionReturnsToIdle(v: FormVariant, p: Page, outcome: Result<string, string>)
    requires !p.isLoading && !p.showModal && p.shareableUrl == ""
    requires !IsBlank(p.secretMessage)
    ensures var sent := Submit(v, p).page;
      var done := Settle(sent, outcome).page;
      && sent.isLoading
      && !done.isLoading
      && done.showModal == outcome.Success?
      && CloseModal(done) == p
  {
  }

  /**
    The scenario "hello" with expiry "10" and views "3": the posted body is
    `{"secret":"hello","expire_minutes":10,"max_views":3}` and a success with
    url U leaves the modal open on U.
  */
  lemma HelloScenario(v: FormVariant, url: string)
    requires url != ""
    ensures var p := InitialPage.(secretMessage := "hello", expiryMinutes := "10", maxViews := "3");
      var t := Submit(v, p);
      && t.effect == Post(ShareEndpoint(v), ShareRequest("hello", 10, 3))
      && Settle(t.page, Success(url)).page.showModal
      && Settle(t.page, Success(url)).page.shareableUrl == url
  {
    var p := InitialPage.(secretMessage := "hello", expiryMinutes := "10", maxViews := "3");
    assert !IsStrWhiteSpace(p.secretMessage[0]);
    assert !IsBlank(p.secretMessage);
    ParseOrOfTen(DefaultExpiryMinutes);
    ParseOrOfThree(DefaultMaxViews);
  }

  lemma ParseOrOfTen(fallback: int)
    ensures ParseOr("10", fallback) == 10
  {
    assert DecimalDigit(1) == '1' && DecimalDigit(0) == '0';
    assert ShowNat(10) == ShowNat(1) + [DecimalDigit(0)];
    assert ShowInt(10) + "" == "10";
    ParseOrKeepsNonZero(10, "", fallback);
  }

  lemma ParseOrOfThree(fallback: int)
    ensures ParseOr("3", fallback) == 3
  {
    assert ShowInt(3) + "" == "3";
    ParseOrKeepsNonZero(3, "", fallback);
  }

  /** The scenario "hi" with an empty expiry box and views "abc": both defaults are sent. */
  lemma DefaultsScenario(v: FormVariant)
    ensures var p := InitialPage.(secretMessage := "hi", expiryMinutes := "", maxViews := "abc");
      Submit(v, p).effect == Post(ShareEndpoint(v), ShareRequest("hi", 10, 3))
  {
    var p := InitialPage.(secretMessage := "hi", expiryMinutes := "", maxViews := "abc");
    assert !IsStrWhiteSpace(p.secretMessage[0]);
    ParseOrFallsBack(DefaultExpiryMinutes);
    ParseOrFallsBack(DefaultMaxViews);
  }

  /** The user's actions and the network's answer, as the page receives them. */
  datatype Event =
    | EditMessage(text: string)
    | EditExpiry(text: string)
    | EditViews(text: string)
    | ClickSubmit
    | Answer(outcome: FetchOutcome)
    | Dismiss

  /** The form together with the number of share requests still awaiting an answer. */
  datatype Session = Session(page: Page, pending: nat)

  /**
    One event. An answer can only arrive for a pending request; the close
    controls exist only while the modal is shown.
  */
  function Next(v: FormVariant, s: Session, e: Event): Session {
    match e
    case EditMessage(text) => s.(page := s.page.(secretMessage := text))
    case EditExpiry(text) => s.(page := s.page.(expiryMinutes := text))
    case EditViews(text) => s.(page := s.page.(maxViews := text))
    case ClickSubmit =>
      var t := Submit(v, s.page);
      Session(t.page, if t.effect.Post? then s.pending + 1 else s.pending)
    case Answer(outcome) =>
      if s.pending == 0 then s
      else Session(Settle(s.page, ShareSecret(outcome)).page, s.pending - 1)
    case Dismiss =>
      if s.page.showModal then s.(page := CloseModal(s.page)) else s
  }

  function Run(v: FormVariant, s: Session, events: seq<Event>): Session
    decreases |events|
  {
    if events == [] then s else Run(v, Next(v, s, events[0]), events[1..])
  }

  /** `isLoading` is true exactly while one request is awaiting its answer. */
  predicate LoadingTracksRequest(s: Session) {
    s.pending == if s.page.isLoading then 1 else 0
  }

  /**
    Whatever the user does, at most one share request is in flight, and the
    submit button is disabled exactly while it is: a double click cannot
    create two secrets.
  */
  lemma {:induction false} AtMostOneRequestInFlight(v: FormVariant, s: Session, events: seq<Event>)
    requires LoadingTracksRequest(s)
    ensures LoadingTracksRequest(Run(v, s, events))
    ensures Run(v, s, events).pending <= 1
    decreases |events|
  {
    if events != [] {
      AtMostOneRequestInFlight(v, Next(v, s, events[0]), events[1..]);
    }
  }

  /** From a freshly loaded page the invariant holds from the start. */
  lemma FreshPageHasNoRequest(v: FormVariant, events: seq<Event>)
    ensures var s := Run(v, Session(InitialPage, 0), events);
      s.pending <= 1 && (SubmitDisabled(s.page) <==> s.pending == 1)
  {
    AtMostOneRequestInFlight(v, Session(InitialPage, 0), events);
  }
}
