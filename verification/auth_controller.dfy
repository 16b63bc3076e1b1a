/**
 * The authentication handlers (server/controllers/authController.js) over
 * the Users table: `register`, `login` and `getProfile`. Each handler takes
 * the table and returns the new table with the HTTP response. `fault`
 * stands for a database failure the handler cannot see coming.
 */
module AuthController {
  import opened Js
  import opened UserModel
  import ErrorHandler

  /**
   * A user record as `getProfile` returns it: the declared attributes
   * except `password`. The `createdAt`/`updatedAt` columns the ORM adds are
   * not modelled.
   */
  datatype Profile = Profile(id: Id, email: string, preferences: map<string, string>)

  /** The JSON bodies the handlers send; `ProfileBody(None)` is the JSON `null`. */
  datatype Body = TokenBody(token: string) | ProfileBody(profile: Option<Profile>) | ErrorBody(error: string)

  datatype Response = Response(status: int, body: Body)

  /** The table after a handler ran, and the response it sent. */
  datatype Outcome = Outcome(users: seq<User>, response: Response)

  const ServerError := Response(500, ErrorBody("Server error"))
  const EmailTaken := Response(400, ErrorBody("Email already exists"))
  const BadCredentials := Response(401, ErrorBody("Invalid credentials"))

  /** Some row already holds this e-mail or this key: the insert violates a unique constraint. */
  predicate Clashes(users: seq<User>, email: string, id: Id)
  {
    exists i :: 0 <= i < |users| && (users[i].email == email || users[i].id == id)
  }

  /**
   * `register`. Hashing an absent password throws; the ORM rejects an absent
   * or malformed e-mail before inserting; a unique-constraint violation
   * (the e-mail, or the freshly drawn `newId`, already present) answers
   * 400; any other failure answers 500. On success the row stores the hash
   * and the response carries a token for the new id.
   */
  function Register(prim: Primitives, users: seq<User>, email: Option<string>, password: Option<string>,
                    salt: nat, newId: Id, fault: bool): (r: Outcome)
    ensures r.response.status in {201, 400, 500}
    ensures r.response.status == 201 <==>
              && password.Some? && email.Some? && prim.isEmail(email.value) && !fault
              && !Clashes(users, email.value, newId)
    ensures r.response.status == 201 ==>
              && r.users == users + [User(newId, email.value, prim.hash(password.value, salt), map[])]
              && r.response.body == TokenBody(prim.sign(Claims(newId, TokenLifetime)))
    ensures r.response.status != 201 ==> r.users == users
    ensures r.response.status == 400 <==>
              && password.Some? && email.Some? && prim.isEmail(email.value) && !fault
              && Clashes(users, email.value, newId)
    ensures r.response.status == 400 ==> r.response == EmailTaken
    ensures r.response.status == 500 ==> r.response == ServerError
    ensures (&& password.Some? && email.Some? && prim.isEmail(email.value) && !fault
             && exists i :: 0 <= i < |users| && users[i].email == email.value)
              ==> r.response == EmailTaken
  {
    if password.None? then Outcome(users, ServerError)
    else if email.None? || !prim.isEmail(email.value) then Outcome(users, ServerError)
    else if fault then Outcome(users, ServerError)
    else if Clashes(users, email.value, newId) then Outcome(users, EmailTaken)
    else
      var u := NewUser(newId, email.value, prim.hash(password.value, salt));
      Outcome(users + [u], Response(201, TokenBody(prim.sign(Claims(u.id, TokenLifetime)))))
  }

  /**
   * `login`. An absent e-mail makes the lookup throw (500), while a `null`
   * one looks for a row whose e-mail is `NULL` and finds none (the column is
   * not null); an unknown e-mail and a wrong password give the same 401;
   * comparing against an absent password throws (500). The table never
   * changes.
   */
  function Login(prim: Primitives, users: seq<User>, email: Prop<string>, password: Option<string>,
                 fault: bool): (r: Outcome)
    ensures r.users == users
    ensures r.response.status in {200, 401, 500}
    ensures r.response.status == 500 ==> r.response == ServerError
    ensures r.response.status == 401 ==> r.response == BadCredentials
    ensures email.Absent? || fault ==> r.response == ServerError
    ensures email.Null? && !fault ==> r.response == BadCredentials
    ensures email.Given? && !fault && FindByEmail(users, email.value).None? ==> r.response == BadCredentials
    ensures (&& email.Given? && !fault && password.Some? && FindByEmail(users, email.value).Some?
             && !ValidatePassword(prim, FindByEmail(users, email.value).value, password.value))
              ==> r.response == BadCredentials
    ensures email.Given? && !fault && FindByEmail(users, email.value).Some? && password.None? ==> r.response == ServerError
    ensures r.response.status == 200 <==>
              && email.Given? && !fault && password.Some?
              && FindByEmail(users, email.value).Some?
              && ValidatePassword(prim, FindByEmail(users, email.value).value, password.value)
    ensures r.response.status == 200 ==>
              r.response.body == TokenBody(prim.sign(Claims(FindByEmail(users, email.value).value.id, TokenLifetime)))
  {
    if email.Absent? || fault then Outcome(users, ServerError)
    else if email.Null? then Outcome(users, BadCredentials)
    else match FindByEmail(users, email.value)
      case None => Outcome(users, BadCredentials)
      case Some(u) =>
        if password.None? then Outcome(users, ServerError)
        else if !ValidatePassword(prim, u, password.value) then Outcome(users, BadCredentials)
        else Outcome(users, Response(200, TokenBody(prim.sign(Claims(u.id, TokenLifetime)))))
  }

  /**
   * `getProfile` for the authenticated caller: the caller's row without its
   * password column, or `null` when no row has that key.
   */
  function GetProfile(users: seq<User>, callerId: Id, fault: bool): (r: Outcome)
    ensures r.users == users
    ensures fault ==> r.response == ServerError
    ensures !fault ==> r.response.status == 200 && r.response.body.ProfileBody?
    ensures !fault && FindById(users, callerId).None? ==> r.response.body == ProfileBody(None)
    ensures !fault && FindById(users, callerId).Some? ==>
              var u := FindById(users, callerId).value;
              r.response.body == ProfileBody(Some(Profile(callerId, u.email, u.preferences)))
  {
    if fault then Outcome(users, ServerError)
    else match FindById(users, callerId)
      case None => Outcome(users, Response(200, ProfileBody(None)))
      case Some(u) => Outcome(users, Response(200, ProfileBody(Some(Profile(u.id, u.email, u.preferences)))))
  }

  /** Registration keeps the table's constraints. */
  lemma RegisterPreservesValid(prim: Primitives, users: seq<User>, email: Option<string>, password: Option<string>,
                               salt: nat, newId: Id, fault: bool)
    requires Valid(prim, users)
    ensures Valid(prim, Register(prim, users, email, password, salt, newId, fault).users)
  {
    var r := Register(prim, users, email, password, salt, newId, fault);
    if r.response.status == 201 {
      var s := r.users;
      assert s[..|users|] == users;
      forall i, j | 0 <= i < j < |s| ensures s[i].email != s[j].email && s[i].id != s[j].id {
        if j == |users| { assert s[i] == users[i]; } else { assert s[i] == users[i] && s[j] == users[j]; }
      }
    }
  }

  /**
   * A login with the credentials just registered succeeds and carries the
   * new user's id.
   */
  lemma {:induction false} RegisterThenLogin(prim: Primitives, users: seq<User>, email: string, password: string,
                                             salt: nat, newId: Id)
    requires Sound(prim) && Valid(prim, users)
    requires Register(prim, users, Some(email), Some(password), salt, newId, false).response.status == 201
    ensures var after := Register(prim, users, Some(email), Some(password), salt, newId, false).users;
            Login(prim, after, Given(email), Some(password), false).response
              == Response(200, TokenBody(prim.sign(Claims(newId, TokenLifetime))))
  {
    var after := Register(prim, users, Some(email), Some(password), salt, newId, false).users;
    RegisterPreservesValid(prim, users, Some(email), Some(password), salt, newId, false);
    assert after[|users|].email == email;
    FindByEmailUnique(after, |users|);
    NewUserAcceptsItsPassword(prim, newId, email, password, salt);
  }

  /**
   * The profile of a user just registered is the submitted e-mail with the
   * default empty preferences, under the new id, and no password.
   */
  lemma RegisterThenProfile(prim: Primitives, users: seq<User>, email: string, password: string,
                            salt: nat, newId: Id)
    requires prim.isEmail(email) && !Clashes(users, email, newId)
    ensures var r := Register(prim, users, Some(email), Some(password), salt, newId, false);
            && r.response.status == 201
            && GetProfile(r.users, newId, false).response == Response(200, ProfileBody(Some(Profile(newId, email, map[]))))
  {
    var after := Register(prim, users, Some(email), Some(password), salt, newId, false).users;
    var u := NewUser(newId, email, prim.hash(password, salt));
    assert after == users + [u];
    FindFirstPastMisses(users, [u], (x: User) => x.id == newId);
  }

  /**
   * Login never reveals which credential was wrong: an unknown e-mail, a
   * `null` e-mail and a known e-mail with a wrong password receive the
   * identical response.
   */
  lemma LoginFailureIsUniform(prim: Primitives, users: seq<User>, unknown: string, known: string, p1: string, p2: string)
    requires Valid(prim, users)
    requires forall i :: 0 <= i < |users| ==> users[i].email != unknown
    requires FindByEmail(users, known).Some? && !ValidatePassword(prim, FindByEmail(users, known).value, p2)
    ensures Login(prim, users, Given(unknown), Some(p1), false).response
         == Login(prim, users, Given(known), Some(p2), false).response
    ensures Login(prim, users, Null, Some(p1), false).response
         == Login(prim, users, Given(known), Some(p2), false).response
  {
  }

  /**
   * The same duplicate-e-mail condition is answered 400 by `register` but
   * would be answered 409 by the error middleware, were that middleware
   * mounted and the error passed on to it.
   */
  lemma DuplicateEmailStatusesDisagree(prim: Primitives, users: seq<User>, i: int, password: string, salt: nat, newId: Id)
    requires 0 <= i < |users| && prim.isEmail(users[i].email)
    ensures Register(prim, users, Some(users[i].email), Some(password), salt, newId, false).response.status == 400
    ensures ErrorHandler.Handle(ErrorHandler.Err(false, None, ErrorHandler.UniqueName, [], None, None)).status == 409
  {
  }
}
