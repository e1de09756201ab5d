/** The `users` table, shared by server.js and routes/auth.js, and the login
    decision both use. Password hashing is outside the model: a row stores the
    hash it was given, and `check` stands for bcrypt.compare(password, hash). */
module Users {
  import opened Common
  import Gate

  datatype User = User(id: nat, username: string, email: string, passwordHash: string, fullName: string, role: string)

  /** `WHERE email = ?` */
  function EmailIs(email: string): User -> bool
  {
    (u: User) => u.email == email
  }

  /** `WHERE username = ?` */
  function UsernameIs(username: string): User -> bool
  {
    (u: User) => u.username == username
  }

  /** `WHERE email = ? AND role = "admin"` */
  function AdminEmailIs(email: string): User -> bool
  {
    (u: User) => u.email == email && u.role == Gate.ADMIN
  }

  /** The token payload a login signs for a user row (`id, email, role,
      full_name, username`). */
  function ClaimsOf(u: User): Gate.Claims
  {
    Gate.Claims(u.id, u.email, u.role, u.fullName, u.username)
  }

  /** Two rows that are different accounts: distinct id, email and username. */
  predicate DistinctAccounts(a: User, b: User)
  {
    a.id != b.id && a.email != b.email && a.username != b.username
  }

  /** No two rows share an id, an email or a username: the primary key, and
      what the sign-up handlers' existence checks are there to keep. */
  ghost predicate UniqueAccounts(users: seq<User>)
  {
    Pairwise(users, DistinctAccounts)
  }

  /** The login decision: the first row the lookup finds, provided its stored
      hash matches the password. No row and a wrong password both give None, so
      the caller cannot tell them apart. */
  function CheckCredentials(users: seq<User>, lookup: User -> bool, password: string,
                            check: (string, string) -> bool): (r: Option<User>)
    ensures r.Some? ==> r.value in users && lookup(r.value) && check(password, r.value.passwordHash)
    ensures Count(users, lookup) == 0 ==> r == None
  {
    var k := FirstWhere(users, lookup);
    if k == |users| then None
    else if !check(password, users[k].passwordHash) then None
    else Some(users[k])
  }

  /** With unique emails, logging in by a user's email succeeds exactly when
      the password matches that user's hash, and yields that user. */
  lemma {:induction false} CredentialsByEmail(users: seq<User>, u: User, password: string, check: (string, string) -> bool)
    requires UniqueAccounts(users)
    requires u in users
    ensures CheckCredentials(users, EmailIs(u.email), password, check)
            == if check(password, u.passwordHash) then Some(u) else None
  {
    var i :| 0 <= i < |users| && users[i] == u;
    assert EmailIs(u.email)(users[i]);
    var k := FirstWhere(users, EmailIs(u.email));
    assert k <= i;
    assert users[k].email == u.email;
    assert k == i;
  }

  /** The admin login finds only admins: a non-admin's own email and correct
      password are refused like any wrong credentials. */
  lemma {:induction false} AdminLookupSkipsOthers(users: seq<User>, u: User, password: string, check: (string, string) -> bool)
    requires UniqueAccounts(users)
    requires u in users && u.role != Gate.ADMIN
    ensures CheckCredentials(users, AdminEmailIs(u.email), password, check) == None
  {
    var i :| 0 <= i < |users| && users[i] == u;
    forall j | 0 <= j < |users| ensures !AdminEmailIs(u.email)(users[j]) {
      if j < i {
        assert users[j].email != users[i].email;
      } else if j > i {
        assert users[i].email != users[j].email;
      }
    }
  }

  /** ... and an admin's credentials work there as they do at the ordinary login. */
  lemma {:induction false} AdminLookupFindsAdmin(users: seq<User>, u: User, password: string, check: (string, string) -> bool)
    requires UniqueAccounts(users)
    requires u in users && u.role == Gate.ADMIN
    ensures CheckCredentials(users, AdminEmailIs(u.email), password, check)
            == if check(password, u.passwordHash) then Some(u) else None
  {
    var i :| 0 <= i < |users| && users[i] == u;
    assert AdminEmailIs(u.email)(users[i]);
    var k := FirstWhere(users, AdminEmailIs(u.email));
    assert k <= i;
    assert users[k].email == u.email;
    assert k == i;
  }
}
