/**
 * The error middleware (server/middleware/errorHandler.js), which
 * server/server.js does not mount and every controller's own `catch`
 * would bypass anyway: it maps an error object to an HTTP status and a
 * JSON body. Upstream (axios)
 * errors win over ORM errors, which win over the generic fallback.
 */
module ErrorHandler {
  import opened Js

  /** `err.response` of an upstream HTTP error: its status and `data.message`, when present. */
  datatype Upstream = Upstream(status: Option<int>, dataMessage: Option<string>)

  /** One entry of an ORM validation error's `errors` list. */
  datatype InnerError = InnerError(message: string, path: string)

  /** The properties of an error object the middleware reads. */
  datatype Err = Err(
    isAxiosError: bool,
    response: Option<Upstream>,
    name: string,
    errors: seq<InnerError>,
    status: Option<int>,
    message: Option<string>)

  /** The JSON bodies the middleware sends. */
  datatype Body =
    | Described(error: string, message: string)     // { error, message }
    | Listed(error: string, messages: seq<string>)  // { error, messages }
    | Plain(error: string)                          // { error }

  datatype Response = Response(status: int, body: Body)

  const ValidationName := "SequelizeValidationError"
  const UniqueName := "SequelizeUniqueConstraintError"

  /** `errorHandler`. */
  function Handle(err: Err): (r: Response)
    ensures err.isAxiosError ==>
              r.body.Described? && r.body.error == "External API Error"
    ensures err.isAxiosError ==>
              r.status == (if err.response.Some? then OrNumber(err.response.value.status, 500) else 500)
    ensures err.isAxiosError ==>
              r.body.message == (if err.response.Some? then Or(err.response.value.dataMessage, "Error fetching external data")
                                 else "Error fetching external data")
    ensures !err.isAxiosError && err.name == ValidationName ==>
              r.status == 400 && r.body.Listed? && r.body.error == "Validation Error"
              && |r.body.messages| == |err.errors|
              && forall i :: 0 <= i < |err.errors| ==> r.body.messages[i] == err.errors[i].message
    ensures !err.isAxiosError && err.name == UniqueName ==>
              r == Response(409, Described("Conflict Error", "Resource already exists"))
    ensures !err.isAxiosError && err.name != ValidationName && err.name != UniqueName ==>
              r == Response(OrNumber(err.status, 500), Plain(Or(err.message, "Internal Server Error")))
    ensures r.body.Listed? <==> !err.isAxiosError && err.name == ValidationName
    ensures r.status != 0
  {
    if err.isAxiosError then
      match err.response
      case Some(up) => Response(OrNumber(up.status, 500), Described("External API Error", Or(up.dataMessage, "Error fetching external data")))
      case None => Response(500, Described("External API Error", "Error fetching external data"))
    else if err.name == ValidationName then
      Response(400, Listed("Validation Error", seq(|err.errors|, i requires 0 <= i < |err.errors| => err.errors[i].message)))
    else if err.name == UniqueName then
      Response(409, Described("Conflict Error", "Resource already exists"))
    else
      Response(OrNumber(err.status, 500), Plain(Or(err.message, "Internal Server Error")))
  }

  /** An upstream error's answer depends only on its `response`: the ORM fields are never read. */
  lemma UpstreamIgnoresOrmFields(a: Err, b: Err)
    requires a.isAxiosError && b.isAxiosError && a.response == b.response
    ensures Handle(a) == Handle(b)
  {
  }

  /** Any other error's answer never depends on `response`: a stray one is ignored. */
  lemma OtherErrorsIgnoreResponse(err: Err, up: Option<Upstream>)
    requires !err.isAxiosError
    ensures Handle(err.(response := up)) == Handle(err)
  {
  }

  /** Every message of a validation answer comes from one of the inner errors, and every inner error is reported. */
  lemma ValidationReportsEachInnerError(err: Err)
    requires !err.isAxiosError && err.name == ValidationName
    ensures forall e :: e in err.errors ==> e.message in Handle(err).body.messages
    ensures forall m :: m in Handle(err).body.messages ==> exists e :: e in err.errors && e.message == m
  {
    var ms := Handle(err).body.messages;
    forall e | e in err.errors
      ensures e.message in ms
    {
      var i :| 0 <= i < |err.errors| && err.errors[i] == e;
      assert ms[i] == e.message;
    }
    forall m | m in ms
      ensures exists e :: e in err.errors && e.message == m
    {
      var i :| 0 <= i < |ms| && ms[i] == m;
      assert err.errors[i] in err.errors;
    }
  }
}
