/**
 * The client's error classification (client/src/utils/error.utils.js):
 * the error kinds, the fixed user-facing messages, and `parseApiError`,
 * which turns whatever an HTTP call rejected with into a kind and a message.
 */
module ErrorUtils {
  import opened Js

  /** `ErrorTypes`. */
  datatype ErrorType = Validation | Authentication | Authorization | Network | Server | Unknown

  // `ErrorMessages`, by kind.
  const InvalidEmail := "Please enter a valid email address"
  const InvalidPassword := "Password must be at least 8 characters with 1 uppercase, 1 lowercase, and 1 number"
  const PasswordsDontMatch := "Passwords do not match"
  const RequiredField := "This field is required"
  const InvalidCredentials := "Invalid email or password"
  const SessionExpired := "Your session has expired. Please log in again"
  const Unauthorized := "You are not authorized to perform this action"
  const ConnectionError := "Unable to connect to the server. Please check your internet connection"
  const Timeout := "The request timed out. Please try again"
  const InternalError := "An unexpected error occurred. Please try again later"
  const ServiceUnavailable := "The service is temporarily unavailable. Please try again later"

  /** The literal default used by `parseApiError` for unknown errors. */
  const UnexpectedError := "An unexpected error occurred"

  /** The JSON body of an error reply: its `error` and `message` properties, when present. */
  datatype ReplyData = ReplyData(error: Option<string>, message: Option<string>)

  /** `error.response`: the HTTP status and the parsed body. */
  datatype Reply = Reply(status: int, data: ReplyData)

  /**
   * A truthy rejection value as an HTTP client produces it: its `message`
   * and, when the server answered, its `response`. A thrown string has
   * neither property.
   */
  datatype Thrown = Thrown(message: Option<string>, response: Option<Reply>)

  /**
   * The value a promise rejected with. `null` and `undefined` make any
   * property access throw; a falsy primitive (`""`, `0`, `false`, `NaN`)
   * reads every property as `undefined`; anything else is truthy.
   */
  datatype Reason = Nullish | FalsyPrimitive | Raised(err: Thrown)

  /** The `{type, message}` pair `parseApiError` returns. */
  datatype Parsed = Parsed(kind: ErrorType, message: string)

  /** The rejection carries the axios network-failure marker. */
  predicate IsNetworkFailure(e: Reason)
  {
    e.Raised? && e.err.message == Some("Network Error")
  }

  /** The server answered (and the network marker is absent) with a status satisfying `p`. */
  predicate AnsweredWith(e: Reason, p: int -> bool)
  {
    e.Raised? && !IsNetworkFailure(e) && e.err.response.Some? && p(e.err.response.value.status)
  }

  /**
   * `parseApiError`. Checks run in order and the first that applies wins:
   * falsy error, network marker, then the reply's status (401, 400, >= 500,
   * other), then the error's own message.
   */
  function ParseApiError(e: Reason): (r: Parsed)
    ensures r.kind != Authorization
    ensures r.message != ""
    ensures r.kind == Network <==> IsNetworkFailure(e)
    ensures IsNetworkFailure(e) ==> r.message == ConnectionError
    ensures r.kind == Authentication <==> AnsweredWith(e, s => s == 401)
    ensures AnsweredWith(e, s => s == 401) ==>
              r.message == Or(e.err.response.value.data.error, InvalidCredentials)
    ensures r.kind == Validation <==> AnsweredWith(e, s => s == 400)
    ensures AnsweredWith(e, s => s == 400) ==>
              r.message == Or(e.err.response.value.data.error, RequiredField)
    ensures r.kind == Server <==> AnsweredWith(e, s => s >= 500)
    ensures AnsweredWith(e, s => s >= 500) ==> r.message == InternalError
    ensures AnsweredWith(e, s => s != 400 && s != 401 && s < 500) ==>
              r == Parsed(Unknown, Or(e.err.response.value.data.error, UnexpectedError))
    ensures !e.Raised? ==> r == Parsed(Unknown, UnexpectedError)
    ensures e.Raised? && !IsNetworkFailure(e) && e.err.response.None? ==>
              r == Parsed(Unknown, Or(e.err.message, UnexpectedError))
  {
    match e
    case Nullish => Parsed(Unknown, UnexpectedError)
    case FalsyPrimitive => Parsed(Unknown, UnexpectedError)
    case Raised(err) =>
      if err.message == Some("Network Error") then Parsed(Network, ConnectionError)
      else match err.response
        case Some(Reply(status, data)) =>
          if status == 401 then Parsed(Authentication, Or(data.error, InvalidCredentials))
          else if status == 400 then Parsed(Validation, Or(data.error, RequiredField))
          else if status >= 500 then Parsed(Server, InternalError)
          else Parsed(Unknown, Or(data.error, UnexpectedError))
        case None => Parsed(Unknown, Or(err.message, UnexpectedError))
  }
}
