/** HTTP statuses the application raises, the JSON envelopes its error
    handlers answer with, and the `try: ... except: abort(code)` shape that
    several route handlers share. */
module Http {

  /** The four statuses that have an error handler. `ServerError` also stands
      for any Python exception that is not an HTTP abort (an AttributeError, a
      KeyError, a ValueError, a storage error): Flask answers those with 500
      unless a surrounding `except:` catches them first. */
  datatype Status = BadRequest | NotFound | Unprocessable | ServerError

  function Code(s: Status): (c: nat)
    ensures c == 400 <==> s == BadRequest
    ensures c == 404 <==> s == NotFound
    ensures c == 422 <==> s == Unprocessable
    ensures c == 500 <==> s == ServerError
  {
    match s
    case BadRequest => 400
    case NotFound => 404
    case Unprocessable => 422
    case ServerError => 500
  }

  /** The body of every error response: `{success, error, message}`. */
  datatype Envelope = Envelope(success: bool, error: nat, message: string)

  /** The error handlers: one fixed message per status. */
  function ErrorEnvelope(s: Status): (e: Envelope)
    ensures !e.success && e.error == Code(s)
  {
    var message :=
      match s
      case BadRequest => "bad request"
      case NotFound => "Not found"
      case Unprocessable => "unprocessable"
      case ServerError => "internet server error";
    Envelope(false, Code(s), message)
  }

  /** What a handler ends with: a JSON success payload, or an abort with a status. */
  datatype Response<T> = Ok(body: T) | Abort(status: Status)

  /** `try: <attempt> except: abort(code)`. A bare `except:` catches every
      exception, including the HTTPException that an `abort(...)` inside the
      `try` raises, so whatever status the attempt aborted with is replaced by
      `code`. */
  function CatchAll<T>(attempt: Response<T>, code: Status): (r: Response<T>)
    ensures r.Ok? <==> attempt.Ok?
    ensures attempt.Ok? ==> r == attempt
    ensures r.Abort? ==> r.status == code
  {
    match attempt
    case Ok(_) => attempt
    case Abort(_) => Abort(code)
  }
}
