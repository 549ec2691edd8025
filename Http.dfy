/** HTTP outcomes of the trivia API: the error statuses the application
    registers handlers for, their fixed messages, and the envelope every
    failed request answers with. */
module Http {

  import opened Wrappers

  /** The statuses that have an error handler. */
  datatype Status = BadRequest | NotFound | MethodNotAllowed | Unprocessable | InternalServerError

  /** What a request handler produces: a success payload (sent with
      `success: true` and status 200) or an abort with an error status. */
  datatype Result<+T> = Ok(value: T) | Err(status: Status)

  /** The JSON object of an error response. */
  datatype ErrorEnvelope = ErrorEnvelope(success: bool, error: int, message: string)

  /** Numeric HTTP code of an error status. */
  function Code(s: Status): (c: int)
    ensures 400 <= c < 600
  {
    match s
    case BadRequest => 400
    case NotFound => 404
    case MethodNotAllowed => 405
    case Unprocessable => 422
    case InternalServerError => 500
  }

  /** The fixed message the handler for a status puts in the envelope. */
  function Message(s: Status): string
  {
    match s
    case BadRequest => "bad request"
    case NotFound => "resource not found"
    case MethodNotAllowed => "method not allowed"
    case Unprocessable => "unprocessable"
    case InternalServerError => "internal server error"
  }

  /** The error handler registered for a numeric code, if there is one. */
  function HandlerFor(code: int): (s: Option<Status>)
    ensures s.Some? <==> code in {400, 404, 405, 422, 500}
  {
    if code == 400 then Some(BadRequest)
    else if code == 404 then Some(NotFound)
    else if code == 405 then Some(MethodNotAllowed)
    else if code == 422 then Some(Unprocessable)
    else if code == 500 then Some(InternalServerError)
    else None
  }

  /** The body an error handler returns. */
  function Envelope(s: Status): (e: ErrorEnvelope)
    ensures !e.success
    ensures HandlerFor(e.error) == Some(s)
  {
    ErrorEnvelope(false, Code(s), Message(s))
  }

  /** The HTTP status line code of a handler's outcome. */
  function StatusCode<T>(r: Result<T>): (c: int)
    ensures r.Ok? <==> c == 200
    ensures r.Err? ==> HandlerFor(c) == Some(r.status)
  {
    match r
    case Ok(_) => 200
    case Err(s) => Code(s)
  }

  /** Each registered code is answered by exactly one status, and that
      status answers with that code: the code/status table is a bijection. */
  lemma CodeRoundTrip(s: Status, code: int)
    ensures HandlerFor(Code(s)) == Some(s)
    ensures HandlerFor(code) == Some(s) ==> Code(s) == code
  {
  }

  /** Distinct statuses carry distinct messages, so the message alone
      identifies the error. */
  lemma MessagesDistinct(s: Status, t: Status)
    ensures Message(s) == Message(t) ==> s == t
  {
  }

  /** The envelope's `error` field always agrees with the status code of
      the response that carries it. */
  lemma EnvelopeMatchesStatus<T>(r: Result<T>)
    requires r.Err?
    ensures Envelope(r.status).error == StatusCode(r)
    ensures Envelope(r.status).message == Message(r.status)
  {
  }
}
