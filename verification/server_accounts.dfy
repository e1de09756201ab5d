/** Sign-up and login of server.js (`POST /api/register`, `POST /api/login`).
    The hash of the new password is a parameter (bcrypt.hash is salted, so
    any value the caller passes is one it could have produced); `check`
    stands for bcrypt.compare. */
module ServerAccounts {
  import opened Common
  import Gate
  import opened Users
  import opened ServerDb

  /** POST /api/register: the email check comes first, then the username
      check; a new account always gets the role `student`, and its id is
      the next value of the users counter. */
  function SignUp(db: Db, fullName: string, username: string, email: string, hashed: string): (s: Step<nat>)
    ensures s.reply.Err? ==> s.db == db && s.reply.error in {EmailTaken, UsernameTaken}
    ensures s.reply == Err(EmailTaken) <==> exists u :: u in db.users && u.email == email
    ensures s.reply == Err(UsernameTaken) <==>
              (forall u :: u in db.users ==> u.email != email) && exists u :: u in db.users && u.username == username
    ensures s.reply.Ok? ==>
              && s.reply.value == db.nextUserId
              && s.db == db.(users := db.users + [User(db.nextUserId, username, email, hashed, fullName, Gate.STUDENT)],
                             nextUserId := db.nextUserId + 1)
  {
    if Count(db.users, EmailIs(email)) > 0 then
      Step(db, Err(EmailTaken))
    else if Count(db.users, UsernameIs(username)) > 0 then
      Step(db, Err(UsernameTaken))
    else
      var u := User(db.nextUserId, username, email, hashed, fullName, Gate.STUDENT);
      Step(db.(users := db.users + [u], nextUserId := db.nextUserId + 1), Ok(db.nextUserId))
  }

  /** POST /api/login: the first row with that email, if its hash matches,
      yields the claims a token is signed over; an unknown email and a wrong
      password give the same refusal. */
  function Login(users: seq<User>, email: string, password: string, check: (string, string) -> bool): (r: Result<Gate.Claims, Error>)
    ensures r.Err? ==> r.error == InvalidCredentials
    ensures r.Ok? ==> exists u :: u in users && u.email == email && check(password, u.passwordHash) && r.value == ClaimsOf(u)
    ensures (forall u :: u in users ==> u.email != email) ==> r == Err(InvalidCredentials)
  {
    match CheckCredentials(users, EmailIs(email), password, check)
    case None => Err(InvalidCredentials)
    case Some(u) => Ok(ClaimsOf(u))
  }

  /** With unique emails, a user's own email logs in exactly when the
      password matches that user's hash, and the claims are that user's
      columns. */
  lemma LoginExact(users: seq<User>, u: User, password: string, check: (string, string) -> bool)
    requires UniqueAccounts(users)
    requires u in users
    ensures Login(users, u.email, password, check)
            == if check(password, u.passwordHash) then Ok(ClaimsOf(u)) else Err(InvalidCredentials)
  {
    CredentialsByEmail(users, u, password, check);
  }

  /** Sign-up keeps the table invariants: the new row has a fresh id, and
      the two existence checks keep emails and usernames unique. (Courses
      and registrations are untouched, so capacity is not at stake.) */
  lemma {:induction false} SignUpKeepsWellFormed(db: Db, fullName: string, username: string, email: string, hashed: string)
    requires WellFormed(db)
    ensures WellFormed(SignUp(db, fullName, username, email, hashed).db)
  {
    var s := SignUp(db, fullName, username, email, hashed);
    if s.reply.Ok? {
      var u := User(db.nextUserId, username, email, hashed, fullName, Gate.STUDENT);
      forall y | y in db.users ensures DistinctAccounts(y, u) {
        assert !EmailIs(email)(y);
        assert !UsernameIs(username)(y);
      }
      PairwiseSnoc(db.users, u, DistinctAccounts);
    }
  }

  /** A fresh account can log in at once with the password it signed up
      with: the login yields the new id, the role `student` and the columns
      given at sign-up. */
  lemma {:induction false} SignUpThenLogin(db: Db, fullName: string, username: string, email: string, password: string,
                                           hashed: string, check: (string, string) -> bool)
    requires WellFormed(db)
    requires SignUp(db, fullName, username, email, hashed).reply.Ok?
    requires check(password, hashed)
    ensures Login(SignUp(db, fullName, username, email, hashed).db.users, email, password, check)
            == Ok(Gate.Claims(db.nextUserId, email, Gate.STUDENT, fullName, username))
  {
    var after := SignUp(db, fullName, username, email, hashed).db;
    var u := User(db.nextUserId, username, email, hashed, fullName, Gate.STUDENT);
    assert after.users == db.users + [u];
    SignUpKeepsWellFormed(db, fullName, username, email, hashed);
    assert UniqueAccounts(after.users);
    assert u in after.users;
    LoginExact(after.users, u, password, check);
    assert ClaimsOf(u) == Gate.Claims(db.nextUserId, email, Gate.STUDENT, fullName, username);
  }
}
