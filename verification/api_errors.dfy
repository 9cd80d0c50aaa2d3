/**
 * `ApiError`: the error side of every HTTP handler, its status code, its
 * JSON body, and the translation from the domain's `CoreError`.
 */
module ApiErrors {
  import opened Wrappers
  import opened Common
  import opened Responses
  import opened Health

  datatype ApiError =
    | ServiceUnavailable(msg: string)
    | InternalServerError
    | StartupError(msg: string)
    | Unauthorized
    | Forbidden
    | NotFound
    | BadRequest(msg: string)
    | Conflict(errorCode: string)

  /** The JSON error body. */
  datatype ErrorBody = ErrorBody(message: string, errorCode: Option<string>, status: nat)

  /** A failure that is the server's side rather than the request's. */
  predicate ServerSide(e: ApiError)
  {
    e.ServiceUnavailable? || e.InternalServerError? || e.StartupError?
  }

  /** `status_code`. */
  function StatusCode(e: ApiError): (code: nat)
    ensures 400 <= code < 600
    ensures code >= 500 <==> ServerSide(e)
    ensures code == 503 <==> e.ServiceUnavailable?
    ensures code == 500 <==> e.InternalServerError? || e.StartupError?
  {
    match e
    case StartupError(_) => 500
    case ServiceUnavailable(_) => 503
    case InternalServerError => 500
    case Unauthorized => 401
    case Forbidden => 403
    case NotFound => 404
    case BadRequest(_) => 400
    case Conflict(_) => 409
  }

  /** Built with the same constructor, whatever the payload. */
  predicate SameKind(a: ApiError, b: ApiError)
  {
    && a.ServiceUnavailable? == b.ServiceUnavailable? && a.InternalServerError? == b.InternalServerError?
    && a.StartupError? == b.StartupError? && a.Unauthorized? == b.Unauthorized?
    && a.Forbidden? == b.Forbidden? && a.NotFound? == b.NotFound?
    && a.BadRequest? == b.BadRequest? && a.Conflict? == b.Conflict?
  }

  /** Two errors share a status only when they are of the same kind, or both are 500s. */
  lemma StatusCodeSeparatesKinds(a: ApiError, b: ApiError)
    ensures StatusCode(a) == StatusCode(b) <==>
      SameKind(a, b) || ((a.InternalServerError? || a.StartupError?) && (b.InternalServerError? || b.StartupError?))
  {
  }

  /** The `Display` text. */
  function Display(e: ApiError): string
  {
    match e
    case ServiceUnavailable(msg) => "Service is unavailable: " + msg
    case InternalServerError => "Internal server error"
    case StartupError(msg) => "Startup error: " + msg
    case Unauthorized => "Unauthorized access"
    case Forbidden => "Forbidden"
    case NotFound => "Not found"
    case BadRequest(msg) => "Bad request: " + msg
    case Conflict(_) => "Conflict"
  }

  /** The text of an error carrying a message ends with that message, after its fixed prefix. */
  lemma DisplayCarriesDetail(e: ApiError)
    requires e.ServiceUnavailable? || e.StartupError? || e.BadRequest?
    ensures |Display(e)| > |e.msg|
    ensures Display(e)[|Display(e)| - |e.msg|..] == e.msg
  {
  }

  /** Two errors of the same kind render alike exactly when they carry the same message. */
  lemma DisplayDistinguishesDetail(a: ApiError, b: ApiError)
    requires (a.ServiceUnavailable? && b.ServiceUnavailable?) || (a.StartupError? && b.StartupError?)
      || (a.BadRequest? && b.BadRequest?)
    ensures Display(a) == Display(b) <==> a.msg == b.msg
  {
    if Display(a) == Display(b) {
      DisplayCarriesDetail(a);
      DisplayCarriesDetail(b);
    }
  }

  /** `Into<ErrorBody>`: the text, the status, and the error code of a conflict only. */
  function ToErrorBody(e: ApiError): (body: ErrorBody)
    ensures body.status == StatusCode(e)
    ensures body.message == Display(e)
    ensures body.errorCode.Some? <==> e.Conflict?
    ensures e.Conflict? ==> body.errorCode == Some(e.errorCode)
  {
    var status := StatusCode(e);
    var message := Display(e);
    match e
    case Conflict(code) => ErrorBody(message, Some(code), status)
    case _ => ErrorBody(message, None, status)
  }

  /** `into_response`: the status line and the body's `status` field agree. */
  function ErrorReply(e: ApiError): (r: Reply<ErrorBody>)
    ensures r.status == r.body.status == StatusCode(e)
    ensures r.body == ToErrorBody(e)
  {
    Reply(StatusCode(e), ToErrorBody(e))
  }

  /** A request without valid credentials gets this exact body. */
  lemma UnauthorizedBody()
    ensures ToErrorBody(Unauthorized) == ErrorBody("Unauthorized access", None, 401)
  {
  }

  /**
   * `From<CoreError>`: an unhealthy service is unavailable, a missing message
   * is not found, blank content is a bad request, and everything else,
   * including the domain's own `ServiceUnavailable`, is an internal error.
   */
  function FromCoreError(e: CoreError): (a: ApiError)
    ensures a.ServiceUnavailable? <==> e.Unhealthy?
    ensures a.NotFound? <==> e.MessageNotFound?
    ensures a.BadRequest? <==> e.InvalidMessageName?
    ensures a.InternalServerError? <==> !(e.Unhealthy? || e.MessageNotFound? || e.InvalidMessageName?)
    ensures !(a.StartupError? || a.Unauthorized? || a.Forbidden? || a.Conflict?)
  {
    match e
    case Unhealthy => ApiError.ServiceUnavailable("Service is unhealthy")
    case MessageNotFound(_) => NotFound
    case InvalidMessageName => BadRequest("Server name cannot be empty")
    case _ => InternalServerError
  }

  /** The HTTP status a domain error ends up with. */
  lemma CoreErrorStatus(e: CoreError)
    ensures StatusCode(FromCoreError(e)) == 404 <==> e.MessageNotFound?
    ensures StatusCode(FromCoreError(e)) == 400 <==> e.InvalidMessageName?
    ensures StatusCode(FromCoreError(e)) == 503 <==> e.Unhealthy?
    ensures StatusCode(FromCoreError(e)) == 500 <==> !(e.Unhealthy? || e.MessageNotFound? || e.InvalidMessageName?)
  {
  }

  /** A failed health probe reaches the client as 503 with the fixed text. */
  lemma UnhealthyProbeIs503(h: IsHealthy)
    requires !Value(h)
    ensures ToResult(h).Err?
    ensures ToErrorBody(FromCoreError(ToResult(h).error)) == ErrorBody("Service is unavailable: " + "Service is unhealthy", None, 503)
  {
  }
}
