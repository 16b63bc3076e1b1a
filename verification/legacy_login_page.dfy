/**
 * The routed sign-in page (client/src/pages/Login.jsx): `handleChange`
 * on the controlled form data and `handleSubmit`, which trims the e-mail,
 * checks both fields are present and reports the server's error.
 */
module LegacyLoginPage {
  import opened Js
  import opened Text
  import opened ErrorUtils

  const MissingFields := "Email and password are required"
  const DefaultFailure := "Invalid email or password. Please try again."

  /** `handleChange`: `{...prev, [name]: value}`. */
  function HandleChange(formData: map<string, string>, name: string, value: string): (r: map<string, string>)
    ensures r.Keys == formData.Keys + {name}
    ensures r[name] == value
    ensures forall k :: k in formData && k != name ==> k in r && r[k] == formData[k]
  {
    formData[name := value]
  }

  /** The credentials handed to `login`. */
  datatype Credentials = Credentials(email: string, password: string)

  /** The page state the submit handler writes. */
  datatype State = State(isLoading: bool, error: Option<string>)

  /** The effect of one submit: the new state and the credentials `login` was called with, if it was. */
  datatype Submitted = Submitted(state: State, sent: Option<Credentials>, navigated: bool)

  /** The message shown for a rejected `login`: `data.error`, else `data.message`, else the default. */
  function FailureMessage(err: Thrown): (m: string)
    ensures m != ""
    ensures err.response.Some? && Truthy(err.response.value.data.error) ==> m == err.response.value.data.error.value
    ensures (err.response.Some? && !Truthy(err.response.value.data.error) && Truthy(err.response.value.data.message))
              ==> m == err.response.value.data.message.value
    ensures (err.response.None? || (!Truthy(err.response.value.data.error) && !Truthy(err.response.value.data.message)))
              ==> m == DefaultFailure
  {
    match err.response
    case None => DefaultFailure
    case Some(reply) => Or(reply.data.error, Or(reply.data.message, DefaultFailure))
  }

  /**
   * `handleSubmit`, reading the raw e-mail and password inputs and given how
   * `login` settled. The previous error is cleared first; the e-mail is
   * trimmed and the password used verbatim; if either is empty `login` is
   * not called; a falsy primitive rejection value has no `response`, so the
   * default message shows; a `null` or `undefined` one makes reading
   * `err.response` throw inside the catch block, leaving the error cleared.
   * Loading is off on every path.
   */
  function HandleSubmit(s: State, rawEmail: string, password: string, outcome: Settled<Reason>): (r: Submitted)
    ensures !r.state.isLoading
    ensures r.sent.Some? <==> Trim(rawEmail) != "" && password != ""
    ensures r.sent.Some? ==> r.sent.value == Credentials(Trim(rawEmail), password)
    ensures r.sent.None? ==> r.state.error == Some(MissingFields) && !r.navigated
    ensures r.navigated <==> r.sent.Some? && outcome.Resolved?
    ensures r.sent.Some? && outcome.Rejected? && outcome.reason.Raised? ==>
              r.state.error == Some(FailureMessage(outcome.reason.err))
    ensures r.sent.Some? && outcome == Rejected(FalsyPrimitive) ==> r.state.error == Some(DefaultFailure)
    ensures r.sent.Some? && (outcome.Resolved? || outcome.reason.Nullish?) ==> r.state.error == None
  {
    var email := Trim(rawEmail);
    if email == "" || password == "" then
      Submitted(State(false, Some(MissingFields)), None, false)
    else
      var sent := Some(Credentials(email, password));
      match outcome
      case Resolved => Submitted(State(false, None), sent, true)
      case Rejected(Nullish) => Submitted(State(false, None), sent, false)
      case Rejected(FalsyPrimitive) => Submitted(State(false, Some(DefaultFailure)), sent, false)
      case Rejected(Raised(err)) => Submitted(State(false, Some(FailureMessage(err))), sent, false)
  }

  /** A whitespace-only e-mail counts as missing, however long it is. */
  lemma BlankEmailIsMissing(s: State, rawEmail: string, password: string, outcome: Settled<Reason>)
    requires AllWhitespace(rawEmail)
    ensures HandleSubmit(s, rawEmail, password, outcome).sent.None?
    ensures HandleSubmit(s, rawEmail, password, outcome).state.error == Some(MissingFields)
  {
  }
}
