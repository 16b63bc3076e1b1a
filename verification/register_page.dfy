/**
 * The registration form (client/src/pages/auth/Register.jsx): its
 * `validate` step over e-mail, password and confirmation, and the submit
 * handler that calls `register` only for a valid form.
 */
module RegisterPage {
  import opened Js
  import opened Validation
  import opened ErrorUtils

  /** The three inputs of the form. */
  datatype Form = Form(email: string, password: string, confirmPassword: string)

  /** What `validate` leaves in `errors`, and its boolean answer. */
  datatype Verdict = Verdict(errors: map<string, string>, ok: bool)

  /**
   * `validate`: the three checks run independently, so several errors can be
   * reported at once, each with its fixed message; the form is accepted iff
   * none was recorded.
   */
  function Validate(f: Form): (v: Verdict)
    ensures v.errors.Keys <= {"email", "password", "confirmPassword"}
    ensures "email" in v.errors <==> !ValidateEmail(f.email)
    ensures "email" in v.errors ==> v.errors["email"] == InvalidEmail
    ensures "password" in v.errors <==> !ValidatePassword(f.password)
    ensures "password" in v.errors ==> v.errors["password"] == InvalidPassword
    ensures "confirmPassword" in v.errors <==> f.password != f.confirmPassword
    ensures "confirmPassword" in v.errors ==> v.errors["confirmPassword"] == PasswordsDontMatch
    ensures v.ok <==> ValidateEmail(f.email) && ValidatePassword(f.password) && f.password == f.confirmPassword
  {
    var e1: map<string, string> := if !ValidateEmail(f.email) then map["email" := InvalidEmail] else map[];
    var e2 := if !ValidatePassword(f.password) then e1["password" := InvalidPassword] else e1;
    var e3 := if f.password != f.confirmPassword then e2["confirmPassword" := PasswordsDontMatch] else e2;
    Verdict(e3, |e3| == 0)
  }

  /** The component state the submit handler writes. */
  datatype State = State(errors: map<string, string>, isLoading: bool)

  /** The effect of one submit: the new state, whether `register` was called, whether it navigated away. */
  datatype Submitted = Submitted(state: State, registerCalled: bool, navigated: bool)

  /**
   * `handleSubmit`, given how the `register` call settled. An invalid form
   * never reaches `register`; a rejected call shows exactly the parsed
   * error's message under `form`; loading ends after every call.
   */
  function HandleSubmit(s: State, f: Form, outcome: Settled<Reason>): (r: Submitted)
    ensures r.registerCalled <==> Validate(f).ok
    ensures !r.registerCalled ==> r.state == State(Validate(f).errors, s.isLoading) && !r.navigated
    ensures r.registerCalled ==> !r.state.isLoading
    ensures r.navigated <==> r.registerCalled && outcome.Resolved?
    ensures r.registerCalled && outcome.Rejected? ==>
              r.state.errors == map["form" := ParseApiError(outcome.reason).message]
    ensures r.registerCalled && outcome.Resolved? ==> r.state.errors == map[]
  {
    var v := Validate(f);
    if !v.ok then Submitted(State(v.errors, s.isLoading), false, false)
    else match outcome
      case Resolved => Submitted(State(v.errors, false), true, true)
      case Rejected(err) => Submitted(State(map["form" := ParseApiError(err).message], false), true, false)
  }

  /** The requirements sentence shown under the password field is the validation message itself. */
  lemma RequirementsMatchMessage()
    ensures PasswordRequirements() == InvalidPassword
  {
  }
}
