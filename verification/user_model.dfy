/**
 * The Users table (server/models/User.js): the record shape, its defaults
 * and constraints, and the password check. Hashing, token signing and the
 * ORM's e-mail validator are library code and appear here as function
 * fields of `Primitives`; the one fact assumed of them, that a password
 * matches its own hash, is the predicate `Sound`.
 */
module UserModel {
  import opened Js

  /** A primary key (a UUID in the database). */
  type Id = string

  /** A row of the Users table. `password` holds the hash, never the plaintext. */
  datatype User = User(id: Id, email: string, password: string, preferences: map<string, string>)

  /** The payload of a session token. */
  datatype Claims = Claims(id: Id, expiresIn: string)

  /** The session lifetime every token is signed with. */
  const TokenLifetime := "24h"

  /** Library primitives the server relies on, uninterpreted. */
  datatype Primitives = Primitives(
    hash: (string, nat) -> string,      // bcrypt.hash(password, 10), given the salt it draws
    compare: (string, string) -> bool,  // bcrypt.compare(password, hash)
    sign: Claims -> string,             // jwt.sign(claims, secret, { expiresIn })
    isEmail: string -> bool)            // the ORM's `isEmail` validator

  /** The one property assumed of the hash: a password matches every hash of itself. */
  ghost predicate Sound(prim: Primitives)
  {
    forall p: string, salt: nat :: prim.compare(p, prim.hash(p, salt))
  }

  /** A new row as the model's defaults build it: `preferences` starts as the empty map. */
  function NewUser(id: Id, email: string, passwordHash: string): User
  {
    User(id, email, passwordHash, map[])
  }

  /** `id` is the primary key. */
  predicate UniqueIds(users: seq<User>)
  {
    forall i, j :: 0 <= i < j < |users| ==> users[i].id != users[j].id
  }

  /** `email` is unique across users. */
  predicate UniqueEmails(users: seq<User>)
  {
    forall i, j :: 0 <= i < j < |users| ==> users[i].email != users[j].email
  }

  /** The table's constraints: unique keys, unique e-mails, every e-mail validated. */
  predicate Valid(prim: Primitives, users: seq<User>)
  {
    && UniqueIds(users)
    && UniqueEmails(users)
    && forall i :: 0 <= i < |users| ==> prim.isEmail(users[i].email)
  }

  /**
   * `user.validatePassword(p)`: the hash comparison of `p` against the
   * stored hash, which accepts `p` whenever the stored hash is a hash of `p`.
   */
  function ValidatePassword(prim: Primitives, u: User, password: string): (r: bool)
    ensures Sound(prim) && (exists salt: nat :: u.password == prim.hash(password, salt)) ==> r
  {
    prim.compare(password, u.password)
  }

  /** A user created from a hash of `p` accepts `p`. */
  lemma NewUserAcceptsItsPassword(prim: Primitives, id: Id, email: string, p: string, salt: nat)
    requires Sound(prim)
    ensures ValidatePassword(prim, NewUser(id, email, prim.hash(p, salt)), p)
  {
  }

  /** The first row satisfying `p`, as the ORM's single-row queries return it. */
  function FindFirst(users: seq<User>, p: User -> bool): (r: Option<User>)
    ensures r.Some? ==> r.value in users && p(r.value)
    ensures r.None? <==> forall i :: 0 <= i < |users| ==> !p(users[i])
  {
    if users == [] then None
    else if p(users[0]) then Some(users[0])
    else FindFirst(users[1..], p)
  }

  /** Rows that fail the condition are passed over: the search goes on as if they were not there. */
  lemma {:induction false} FindFirstPastMisses(front: seq<User>, back: seq<User>, p: User -> bool)
    requires forall i :: 0 <= i < |front| ==> !p(front[i])
    ensures FindFirst(front + back, p) == FindFirst(back, p)
  {
    if front == [] {
      assert front + back == back;
    } else {
      assert (front + back)[0] == front[0];
      assert (front + back)[1..] == front[1..] + back;
      FindFirstPastMisses(front[1..], back, p);
    }
  }

  /** `User.findOne({ where: { email } })`: the first row with that e-mail. */
  function FindByEmail(users: seq<User>, email: string): (r: Option<User>)
    ensures r.Some? ==> r.value in users && r.value.email == email
    ensures r.None? <==> forall i :: 0 <= i < |users| ==> users[i].email != email
  {
    FindFirst(users, (u: User) => u.email == email)
  }

  /** `User.findByPk(id)`: the row with that key. */
  function FindById(users: seq<User>, id: Id): (r: Option<User>)
    ensures r.Some? ==> r.value in users && r.value.id == id
    ensures r.None? <==> forall i :: 0 <= i < |users| ==> users[i].id != id
  {
    FindFirst(users, (u: User) => u.id == id)
  }

  /** With unique e-mails, the lookup finds exactly the row holding the address. */
  lemma {:induction false} FindByEmailUnique(users: seq<User>, i: int)
    requires UniqueEmails(users) && 0 <= i < |users|
    ensures FindByEmail(users, users[i].email) == Some(users[i])
  {
    if i > 0 {
      assert users[0].email != users[i].email;
      var rest := users[1..];
      assert UniqueEmails(rest) by {
        forall a, b | 0 <= a < b < |rest| ensures rest[a].email != rest[b].email {
          assert rest[a] == users[a + 1] && rest[b] == users[b + 1];
        }
      }
      assert rest[i - 1] == users[i];
      FindByEmailUnique(rest, i - 1);
    }
  }
}
