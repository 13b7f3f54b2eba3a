/**
  Registration, login and the bearer-token gate every other route sits behind.

  The cryptography is not modelled: the bcrypt hash of a new password arrives as a
  parameter, `bcrypt.compare` is the parameter `passwordMatches`, and `jwt.verify`
  (signature and 7-day expiry under the server secret) is the parameter `verify`,
  which yields the `userId` claim of a token it accepts. A successful register or
  login answers with the account id that the signed token carries.
*/
module Auth {
  import opened Wrappers
  import opened Sql
  import opened Http
  import opened Text
  import opened Accounts

  // ---------------------------------------------------------------- verifyToken

  const BEARER: string := "Bearer "

  /** What the middleware does with a request: answer it, or call `next()` with `req.userId` set. */
  datatype Gate = Deny(reply: Reply<()>) | Next(userId: Id)

  /** The header carries a token: it is present and starts with `Bearer `. */
  predicate HasBearer(authorization: Option<string>) {
    authorization.Some? && StartsWith(authorization.value, BEARER)
  }

  /** The token `split(' ')[1]` extracts is the run of characters after `Bearer ` up to the next space. */
  lemma BearerTokenIsSecondField(header: string)
    requires StartsWith(header, BEARER)
    ensures |Split(header, ' ')| >= 2
    ensures Split(header, ' ')[1] == TakeUntil(header[|BEARER|..], ' ')
  {
    var rest := header[|BEARER|..];
    assert header == "Bearer" + ([' '] + rest);
    SplitAfterWord("Bearer", [' '] + rest, ' ');
    assert ([' '] + rest)[1..] == rest;
    assert Split([' '] + rest, ' ') == [""] + Split(rest, ' ');
    SplitFirst(rest, ' ');
  }

  /**
    `verifyToken`: a missing header, or one not starting with `Bearer `, is answered
    401 "No token provided"; otherwise the second space-separated field is verified, and
    a token `verify` rejects is answered 401 "Invalid token". Only an accepted token
    passes the request on, with the user id it names.
  */
  function VerifyToken(authorization: Option<string>, verify: string -> Option<Id>): (g: Gate)
    ensures !HasBearer(authorization) <==> g == Deny(Failure(UNAUTHORIZED, "No token provided"))
    ensures HasBearer(authorization) ==>
      var token := TakeUntil(authorization.value[|BEARER|..], ' ');
      && (g.Next? <==> verify(token).Some?)
      && (g.Next? ==> g.userId == verify(token).value)
      && (g.Deny? ==> g.reply == Failure(UNAUTHORIZED, "Invalid token"))
  {
    if authorization.None? || !StartsWith(authorization.value, BEARER) then
      Deny(Failure(UNAUTHORIZED, "No token provided"))
    else
      BearerTokenIsSecondField(authorization.value);
      var token := Split(authorization.value, ' ')[1];
      match verify(token)
      case None => Deny(Failure(UNAUTHORIZED, "Invalid token"))
      case Some(userId) => Next(userId)
  }

  // ---------------------------------------------------------------- register

  /**
    `POST /register`: an email already on file is refused with 400 and nothing is
    written; otherwise exactly one account is inserted and its id returned with 201.
  */
  method Register(users: UserTable, name: string, email: string, hash: string) returns (reply: Reply<Id>)
    requires users.Valid()
    modifies users
    ensures users.Valid()
    ensures (exists u :: u in old(users.users) && u.email == email) ==>
      && reply == Failure(BAD_REQUEST, "Email already registered")
      && users.users == old(users.users) && users.nextId == old(users.nextId)
    ensures (forall u :: u in old(users.users) ==> u.email != email) ==>
      && reply == Success(CREATED, "User registered successfully", old(users.nextId))
      && users.users == old(users.users) + [NewUser(old(users.nextId), name, email, hash)]
      && users.nextId == old(users.nextId) + 1
    ensures EmailsUnique(old(users.users)) ==> EmailsUnique(users.users)
  {
    if FindByEmail(users.users, email).Some? {
      return Failure(BAD_REQUEST, "Email already registered");
    }
    var id := users.Insert(name, email, hash);
    reply := Success(CREATED, "User registered successfully", id);
  }

  // ---------------------------------------------------------------- login

  const INVALID_CREDENTIALS: Reply<Id> := Failure(UNAUTHORIZED, "Invalid credentials")

  /**
    `POST /login`: the first account with the email, if its stored hash matches the
    password, logs in; every failure is the same 401 "Invalid credentials".
  */
  function Login(users: seq<User>, email: string, password: string, passwordMatches: (string, string) -> bool): (r: Reply<Id>)
    ensures r.Failure? ==> r == INVALID_CREDENTIALS
    ensures r.Success? ==> r.status == OK && r.message == "Login successful"
    ensures r.Success? ==> exists u :: u in users && u.email == email && u.id == r.body && passwordMatches(password, u.password)
    ensures (forall u :: u in users ==> u.email != email) ==> r.Failure?
  {
    match FindByEmail(users, email)
    case None => INVALID_CREDENTIALS
    case Some(u) =>
      if !passwordMatches(password, u.password) then INVALID_CREDENTIALS
      else Success(OK, "Login successful", u.id)
  }

  /** With unique emails, login succeeds exactly when the password matches that account's hash. */
  lemma LoginSucceedsIffPasswordMatches(users: seq<User>, u: User, password: string, passwordMatches: (string, string) -> bool)
    requires EmailsUnique(users)
    requires u in users
    ensures Login(users, u.email, password, passwordMatches) ==
      if passwordMatches(password, u.password) then Success(OK, "Login successful", u.id) else INVALID_CREDENTIALS
  {
    FindByEmailIsTheUser(users, u);
  }

  /** An unknown email and a wrong password get the same answer, so a caller cannot tell which it was. */
  lemma LoginHidesWhichCheckFailed(users: seq<User>, unknown: string, u: User, password: string, wrong: string,
                                   passwordMatches: (string, string) -> bool)
    requires EmailsUnique(users)
    requires forall x :: x in users ==> x.email != unknown
    requires u in users && !passwordMatches(wrong, u.password)
    ensures Login(users, unknown, password, passwordMatches) == Login(users, u.email, wrong, passwordMatches)
  {
    LoginSucceedsIffPasswordMatches(users, u, wrong, passwordMatches);
  }

  /**
    Registering then logging in: with a hash the password matches, the new account
    logs in under its new id; with any password the hash does not match, it gets
    "Invalid credentials".
  */
  lemma RegisterThenLogin(users: seq<User>, id: Id, name: string, email: string, hash: string,
                          password: string, passwordMatches: (string, string) -> bool)
    requires EmailsUnique(users)
    requires forall u :: u in users ==> u.email != email
    ensures var after := users + [NewUser(id, name, email, hash)];
      Login(after, email, password, passwordMatches) ==
        if passwordMatches(password, hash) then Success(OK, "Login successful", id) else INVALID_CREDENTIALS
  {
    var after := users + [NewUser(id, name, email, hash)];
    assert EmailsUnique(after) by {
      forall i, j | 0 <= i < j < |after| ensures DistinctEmails(after[i], after[j]) {
        if j < |users| { assert DistinctEmails(users[i], users[j]); }
        else { assert after[i] in users; }
      }
    }
    LoginSucceedsIffPasswordMatches(after, NewUser(id, name, email, hash), password, passwordMatches);
  }
}
