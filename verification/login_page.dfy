/**
 * The sign-in form (client/src/pages/auth/Login.jsx): `validate` over
 * e-mail and password and the submit handler's guard and error path.
 */
module LoginPage {
  import opened Js
  import opened Validation
  import opened ErrorUtils

  const EmailError := "Invalid email address"
  const PasswordError := "Password is required"
  const LoginFailed := "Failed to login"

  /** What `validate` leaves in `errors`, and its boolean answer. */
  datatype Verdict = Verdict(errors: map<string, string>, ok: bool)

  /**
   * `validate`: an e-mail error iff the address fails the pattern, a password
   * error iff the password is empty; accepted iff the errors map is empty.
   */
  function Validate(email: string, password: string): (v: Verdict)
    ensures v.errors.Keys <= {"email", "password"}
    ensures "email" in v.errors <==> !ValidateEmail(email)
    ensures "email" in v.errors ==> v.errors["email"] == EmailError
    ensures "password" in v.errors <==> password == ""
    ensures "password" in v.errors ==> v.errors["password"] == PasswordError
    ensures v.ok <==> v.errors == map[]
    ensures v.ok <==> ValidateEmail(email) && password != ""
  {
    var e1: map<string, string> := if !ValidateEmail(email) then map["email" := EmailError] else map[];
    var e2 := if password == "" then e1["password" := PasswordError] else e1;
    Verdict(e2, |e2| == 0)
  }

  /** The component state the submit handler writes. */
  datatype State = State(errors: map<string, string>, isLoading: bool)

  /** The effect of one submit: the new state and whether `login` was called. */
  datatype Submitted = Submitted(state: State, loginCalled: bool, navigated: bool)

  /**
   * `handleSubmit`, given how the `login` call settled. An invalid form never
   * reaches `login`. A rejection shows `err.message || "Failed to login"`,
   * which for a falsy primitive is the default; a `null` or `undefined`
   * rejection value makes reading `err.message` throw inside the catch
   * block, so the errors stay as `validate` left them. Loading ends after
   * every call.
   */
  function HandleSubmit(s: State, email: string, password: string, outcome: Settled<Reason>): (r: Submitted)
    ensures r.loginCalled <==> Validate(email, password).ok
    ensures !r.loginCalled ==> r.state == State(Validate(email, password).errors, s.isLoading) && !r.navigated
    ensures r.loginCalled ==> !r.state.isLoading
    ensures r.navigated <==> r.loginCalled && outcome.Resolved?
    ensures r.loginCalled && outcome.Rejected? && outcome.reason.Raised? ==>
              r.state.errors == map["form" := Or(outcome.reason.err.message, LoginFailed)]
    ensures r.loginCalled && outcome == Rejected(FalsyPrimitive) ==> r.state.errors == map["form" := LoginFailed]
    ensures r.loginCalled && (outcome.Resolved? || outcome.reason.Nullish?) ==> r.state.errors == map[]
    ensures "form" in r.state.errors ==> r.state.errors["form"] != ""
  {
    var v := Validate(email, password);
    if !v.ok then Submitted(State(v.errors, s.isLoading), false, false)
    else match outcome
      case Resolved => Submitted(State(v.errors, false), true, true)
      case Rejected(Nullish) => Submitted(State(v.errors, false), true, false)
      case Rejected(FalsyPrimitive) => Submitted(State(map["form" := LoginFailed], false), true, false)
      case Rejected(Raised(err)) => Submitted(State(map["form" := Or(err.message, LoginFailed)], false), true, false)
  }
}
