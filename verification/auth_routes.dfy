/** The alternative authentication routes (routes/auth.js): sign-up with
    required-field validation, login, and an admin login whose lookup only
    sees admins. A missing body field is the empty string (JavaScript treats
    both as falsy). The side inserts a sign-up fires into other tables are
    not part of this model. */
module AuthRoutes {
  import opened Common
  import Gate
  import opened Users

  /** The users table and its AUTO_INCREMENT counter. */
  datatype Accounts = Accounts(users: seq<User>, nextId: nat)

  datatype AuthError =
    | MissingFields        // 400 "All fields are required"
    | EmailTaken           // 400 "Email already registered"
    | UsernameTaken        // 400 "Username already taken"
    | MissingCredentials   // 400 "Email and password are required"
    | InvalidCredentials   // 401 "Invalid credentials"

  function HttpStatus(e: AuthError): (code: nat)
    ensures code == 401 <==> e == InvalidCredentials
    ensures code != 401 ==> code == 400
  {
    if e == InvalidCredentials then 401 else 400
  }

  datatype Outcome<T> = Outcome(accounts: Accounts, reply: Result<T, AuthError>)

  /** Ids below the counter, and unique ids, emails and usernames. */
  ghost predicate Valid(a: Accounts)
  {
    (forall u :: u in a.users ==> u.id < a.nextId) && UniqueAccounts(a.users)
  }

  /** POST /register: every field required, then the email check, then the
      username check; the new account is a `student` with the next id. */
  function SignUp(a: Accounts, fullName: string, username: string, email: string, password: string, hashed: string)
    : (o: Outcome<nat>)
    ensures o.reply.Err? ==> o.accounts == a && o.reply.error in {MissingFields, EmailTaken, UsernameTaken}
    ensures o.reply == Err(MissingFields) <==> fullName == "" || username == "" || email == "" || password == ""
    ensures o.reply == Err(EmailTaken) <==>
              fullName != "" && username != "" && email != "" && password != ""
              && exists u :: u in a.users && u.email == email
    ensures o.reply == Err(UsernameTaken) <==>
              fullName != "" && username != "" && email != "" && password != ""
              && (forall u :: u in a.users ==> u.email != email)
              && exists u :: u in a.users && u.username == username
    ensures o.reply.Ok? ==>
              && o.reply.value == a.nextId
              && o.accounts == Accounts(a.users + [User(a.nextId, username, email, hashed, fullName, Gate.STUDENT)], a.nextId + 1)
  {
    if fullName == "" || username == "" || email == "" || password == "" then
      Outcome(a, Err(MissingFields))
    else if Count(a.users, EmailIs(email)) > 0 then
      Outcome(a, Err(EmailTaken))
    else if Count(a.users, UsernameIs(username)) > 0 then
      Outcome(a, Err(UsernameTaken))
    else
      Outcome(Accounts(a.users + [User(a.nextId, username, email, hashed, fullName, Gate.STUDENT)], a.nextId + 1),
              Ok(a.nextId))
  }

  /** POST /login: both fields required; then the first row with that
      email, if the password matches its hash, gives the token claims. An
      unknown email and a wrong password get the same 401. */
  function Login(users: seq<User>, email: string, password: string, check: (string, string) -> bool)
    : (r: Result<Gate.Claims, AuthError>)
    ensures r == Err(MissingCredentials) <==> email == "" || password == ""
    ensures r.Err? ==> r.error in {MissingCredentials, InvalidCredentials}
    ensures r.Ok? ==> exists u :: u in users && u.email == email && check(password, u.passwordHash) && r.value == ClaimsOf(u)
    ensures email != "" && password != "" && (forall u :: u in users ==> u.email != email) ==> r == Err(InvalidCredentials)
  {
    if email == "" || password == "" then Err(MissingCredentials)
    else
      match CheckCredentials(users, EmailIs(email), password, check)
      case None => Err(InvalidCredentials)
      case Some(u) => Ok(ClaimsOf(u))
  }

  /** POST /admin/login: as login, but the lookup is `WHERE email = ? AND
      role = "admin"`. */
  function AdminLogin(users: seq<User>, email: string, password: string, check: (string, string) -> bool)
    : (r: Result<Gate.Claims, AuthError>)
    ensures r == Err(MissingCredentials) <==> email == "" || password == ""
    ensures r.Err? ==> r.error in {MissingCredentials, InvalidCredentials}
    ensures r.Ok? ==> r.value.role == Gate.ADMIN
    ensures r.Ok? ==> exists u :: u in users && u.email == email && check(password, u.passwordHash) && r.value == ClaimsOf(u)
  {
    if email == "" || password == "" then Err(MissingCredentials)
    else
      match CheckCredentials(users, AdminEmailIs(email), password, check)
      case None => Err(InvalidCredentials)
      case Some(u) => Ok(ClaimsOf(u))
  }

  /** A successful sign-up keeps ids, emails and usernames unique. */
  lemma {:induction false} SignUpKeepsValid(a: Accounts, fullName: string, username: string, email: string,
                                            password: string, hashed: string)
    requires Valid(a)
    ensures Valid(SignUp(a, fullName, username, email, password, hashed).accounts)
  {
    var o := SignUp(a, fullName, username, email, password, hashed);
    if o.reply.Ok? {
      var u := User(a.nextId, username, email, hashed, fullName, Gate.STUDENT);
      forall y | y in a.users ensures DistinctAccounts(y, u) {
        assert !EmailIs(email)(y);
        assert !UsernameIs(username)(y);
      }
      PairwiseSnoc(a.users, u, DistinctAccounts);
    }
  }

  /** Login by a user's own email: with the right password the token claims
      are exactly that row's id, email, role, full name and username; with a
      wrong one the refusal is the one an unknown email gets. */
  lemma LoginOfUser(users: seq<User>, u: User, password: string, check: (string, string) -> bool)
    requires UniqueAccounts(users)
    requires u in users && u.email != "" && password != ""
    ensures Login(users, u.email, password, check)
            == if check(password, u.passwordHash)
               then Ok(Gate.Claims(u.id, u.email, u.role, u.fullName, u.username))
               else Err(InvalidCredentials)
  {
    CredentialsByEmail(users, u, password, check);
  }

  /** A student (or any non-admin) is refused at the admin login even with
      the correct password. */
  lemma AdminLoginRefusesOthers(users: seq<User>, u: User, password: string, check: (string, string) -> bool)
    requires UniqueAccounts(users)
    requires u in users && u.role != Gate.ADMIN && u.email != "" && password != ""
    requires check(password, u.passwordHash)
    ensures AdminLogin(users, u.email, password, check) == Err(InvalidCredentials)
  {
    AdminLookupSkipsOthers(users, u, password, check);
  }

  /** An admin gets in at the admin login exactly as at the ordinary one. */
  lemma AdminLoginAdmitsAdmins(users: seq<User>, u: User, password: string, check: (string, string) -> bool)
    requires UniqueAccounts(users)
    requires u in users && u.role == Gate.ADMIN && u.email != "" && password != ""
    ensures AdminLogin(users, u.email, password, check) == Login(users, u.email, password, check)
  {
    AdminLookupFindsAdmin(users, u, password, check);
    CredentialsByEmail(users, u, password, check);
  }

  /** The users table behind the routes, updated in place by sign-up. */
  class AccountStore {
    var users: seq<User>
    var nextId: nat

    function Snapshot(): Accounts
      reads this
    {
      Accounts(users, nextId)
    }

    constructor()
      ensures Snapshot() == Accounts([], 1)
      ensures Valid(Snapshot())
    {
      users := [];
      nextId := 1;
    }

    /** POST /register */
    method Register(fullName: string, username: string, email: string, password: string, hashed: string)
      returns (reply: Result<nat, AuthError>)
      requires Valid(Snapshot())
      modifies this
      ensures Outcome(Snapshot(), reply) == SignUp(old(Snapshot()), fullName, username, email, password, hashed)
      ensures Valid(Snapshot())
    {
      SignUpKeepsValid(Snapshot(), fullName, username, email, password, hashed);
      if fullName == "" || username == "" || email == "" || password == "" {
        reply := Err(MissingFields);
        return;
      }
      if Count(users, EmailIs(email)) > 0 {
        reply := Err(EmailTaken);
        return;
      }
      if Count(users, UsernameIs(username)) > 0 {
        reply := Err(UsernameTaken);
        return;
      }
      users := users + [User(nextId, username, email, hashed, fullName, Gate.STUDENT)];
      reply := Ok(nextId);
      nextId := nextId + 1;
    }
  }
}
