/**
 * The service's error taxonomy and how each error becomes an HTTP response
 * with a JSON body (`AppError` and its `IntoResponse` implementation).
 */
module AppErrors {
  import opened Base

  const BAD_REQUEST: nat := 400
  const NOT_FOUND: nat := 404
  const INTERNAL_SERVER_ERROR: nat := 500
  const SERVICE_UNAVAILABLE: nat := 503

  /** Each variant keeps the payload the source gives it; causes are reduced to their text. */
  datatype AppError =
    | NotFound
    | ValidationError(message: string)
    | ServerBusy
    | IoError(cause: string)
    | VipsError(cause: string)
    | UnexpectedError(cause: string)
  {
    /** The variants the source lists as client errors. */
    predicate IsClientError()
    {
      NotFound? || ValidationError?
    }
  }

  /** The part of a `serde_json::Value` the error body uses. */
  datatype Json =
    | JNumber(n: int)
    | JString(s: string)
    | JObject(members: seq<(string, Json)>)

  /** The value stored under `key` in a JSON object, if any. */
  function Member(j: Json, key: string): Option<Json>
  {
    match j
    case JObject(ms) => Lookup(ms, key)
    case _ => None
  }

  function Lookup(ms: seq<(string, Json)>, key: string): Option<Json>
  {
    if ms == [] then None
    else if ms[0].0 == key then Some(ms[0].1)
    else Lookup(ms[1..], key)
  }

  /** A rendered error: the status line and the JSON body. */
  datatype ErrorResponse = ErrorResponse(status: nat, body: Json)

  /** The member `key` of the body's `"error"` object. */
  function ErrorField(r: ErrorResponse, key: string): Option<Json>
  {
    match Member(r.body, "error")
    case Some(inner) => Member(inner, key)
    case None => None
  }

  /** `StatusCode::canonical_reason`, for the statuses this service produces. */
  function CanonicalReason(status: nat): Option<string>
  {
    match status
    case 200 => Some("OK")
    case 304 => Some("Not Modified")
    case 400 => Some("Bad Request")
    case 404 => Some("Not Found")
    case 500 => Some("Internal Server Error")
    case 503 => Some("Service Unavailable")
    case _ => None
  }

  /** The status and the user-facing message chosen for each variant. */
  function StatusAndMessage(e: AppError): (r: (nat, string))
  {
    match e
    case NotFound => (NOT_FOUND, "Image not found")
    case ValidationError(msg) => (BAD_REQUEST, msg)
    case ServerBusy => (SERVICE_UNAVAILABLE, "Server is busy (Semaphore timeout)")
    case IoError(_) => (INTERNAL_SERVER_ERROR, "Storage error")
    case VipsError(_) => (INTERNAL_SERVER_ERROR, "Image Processing Failed")
    case UnexpectedError(_) => (INTERNAL_SERVER_ERROR, "Internal Server Error")
  }

  /** `{"error": {"code": status, "type": reason phrase or "Unknown", "message": message}}`. */
  function ErrorBody(status: nat, message: string): Json
  {
    var reason := match CanonicalReason(status) case Some(phrase) => phrase case None => "Unknown";
    JObject([("error", JObject([("code", JNumber(status)), ("type", JString(reason)), ("message", JString(message))]))])
  }

  /** The three members of the error object can be read back from the body. */
  lemma ErrorBodyMembers(status: nat, message: string, reason: string)
    requires reason == match CanonicalReason(status) case Some(phrase) => phrase case None => "Unknown"
    ensures Member(ErrorBody(status, message), "error").Some?
    ensures var inner := Member(ErrorBody(status, message), "error").value;
      && Member(inner, "code") == Some(JNumber(status))
      && Member(inner, "type") == Some(JString(reason))
      && Member(inner, "message") == Some(JString(message))
  {
    var ms := [("code", JNumber(status)), ("type", JString(reason)), ("message", JString(message))];
    assert Lookup(ms[1..], "type") == Some(JString(reason));
    assert ms[1..][1..] == ms[2..];
    assert Lookup(ms[1..], "message") == Lookup(ms[2..], "message") == Some(JString(message));
  }

  /**
   * `AppError::into_response`. Client variants get a 4xx status and server
   * variants a 5xx one; the body's code is the response status, its type the
   * status's reason phrase (never the "Unknown" fallback), and its message
   * the variant's user-facing text.
   */
  function IntoResponse(e: AppError): (r: ErrorResponse)
    ensures e.IsClientError() <==> 400 <= r.status < 500
    ensures !e.IsClientError() <==> 500 <= r.status < 600
    ensures ErrorField(r, "code") == Some(JNumber(r.status))
    ensures CanonicalReason(r.status).Some?
    ensures ErrorField(r, "type") == Some(JString(CanonicalReason(r.status).value))
    ensures ErrorField(r, "message") == Some(JString(StatusAndMessage(e).1))
    ensures e.ValidationError? ==> ErrorField(r, "message") == Some(JString(e.message))
  {
    var (status, message) := StatusAndMessage(e);
    ErrorBodyMembers(status, message, CanonicalReason(status).value);
    ErrorResponse(status, ErrorBody(status, message))
  }

  /** The status and message of every variant, as the client sees them. */
  lemma ResponseTable(e: AppError)
    ensures e == NotFound ==>
      IntoResponse(e).status == 404 && ErrorField(IntoResponse(e), "message") == Some(JString("Image not found"))
    ensures e.ValidationError? ==>
      IntoResponse(e).status == 400 && ErrorField(IntoResponse(e), "message") == Some(JString(e.message))
    ensures e == ServerBusy ==>
      IntoResponse(e).status == 503
      && ErrorField(IntoResponse(e), "message") == Some(JString("Server is busy (Semaphore timeout)"))
    ensures e.IoError? ==>
      IntoResponse(e).status == 500 && ErrorField(IntoResponse(e), "message") == Some(JString("Storage error"))
    ensures e.VipsError? ==>
      IntoResponse(e).status == 500 && ErrorField(IntoResponse(e), "message") == Some(JString("Image Processing Failed"))
    ensures e.UnexpectedError? ==>
      IntoResponse(e).status == 500 && ErrorField(IntoResponse(e), "message") == Some(JString("Internal Server Error"))
  {
  }

  /** Only a validation error forwards text chosen elsewhere; every other message is one of five fixed texts. */
  lemma OnlyValidationForwardsText(e: AppError)
    requires !e.ValidationError?
    ensures StatusAndMessage(e).1 in {"Image not found", "Server is busy (Semaphore timeout)", "Storage error",
                                      "Image Processing Failed", "Internal Server Error"}
  {
  }

  /** A server-class error's inner cause never reaches the response: two causes of one variant render identically. */
  lemma NoCauseLeak(e1: AppError, e2: AppError)
    requires (e1.IoError? && e2.IoError?) || (e1.VipsError? && e2.VipsError?)
             || (e1.UnexpectedError? && e2.UnexpectedError?)
    ensures IntoResponse(e1) == IntoResponse(e2)
  {
  }
}
