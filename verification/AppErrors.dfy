/** `AppError` and the HTTP response `into_response` turns it into. */
module AppErrors {

  datatype AppError = NotFound | Internal(message: string)

  /** The `Display` text derived from the `#[error(...)]` attributes. */
  function Display(e: AppError): string {
    match e
    case NotFound => "Not Found"
    case Internal(_) => "Internal Server Error"
  }

  const StatusNotFound: int := 404
  const StatusInternalServerError: int := 500

  /** A status and a JSON object body, the object as a map from key to string value. */
  datatype ErrorResponse = ErrorResponse(status: int, body: map<string, string>)

  /**
    `into_response`: NotFound answers 404 with its Display text, Internal
    answers 500 with its own message verbatim (not its Display text); the body
    is always the object `{"error": message}`.
  */
  function IntoResponse(e: AppError): (r: ErrorResponse)
    ensures r.status == StatusNotFound || r.status == StatusInternalServerError
    ensures r.status == StatusNotFound <==> e.NotFound?
    ensures r.body.Keys == {"error"}
    ensures e.NotFound? ==> r.body["error"] == "Not Found"
    ensures e.Internal? ==> r.body["error"] == e.message
  {
    match e
    case NotFound => ErrorResponse(StatusNotFound, map["error" := Display(e)])
    case Internal(msg) => ErrorResponse(StatusInternalServerError, map["error" := msg])
  }

  /** The response determines the error: no two errors answer alike. */
  lemma IntoResponseIsInjective(a: AppError, b: AppError)
    ensures IntoResponse(a) == IntoResponse(b) ==> a == b
  {
    if IntoResponse(a) == IntoResponse(b) {
      assert IntoResponse(a).body["error"] == IntoResponse(b).body["error"];
    }
  }

  /** An internal error's body is its message, which differs from its Display text. */
  lemma InternalBodyIsNotDisplay(msg: string)
    requires msg != "Internal Server Error"
    ensures IntoResponse(Internal(msg)).body["error"] != Display(Internal(msg))
  {
  }
}
