/** The access gate of server.js: the `authenticateToken` middleware, which
    turns the `Authorization` header into the claims of a signed token, the
    `requireAdmin` middleware, and the owner-or-admin test of the per-student
    endpoints. Token signature checking (jwt.verify with the server secret and
    the 24-hour expiry) is the parameter `verify`: a token either verifies to the
    claims it was signed with or does not verify. */
module Gate {
  import opened Common

  const ADMIN := "admin"
  const STUDENT := "student"

  /** The payload of a session token: the user row's columns stamped at login. */
  datatype Claims = Claims(id: nat, email: string, role: string, fullName: string, username: string)

  /** Why a request was refused before (or instead of) touching a table. */
  datatype Denial =
    | TokenRequired   // 401 "Access token required"
    | BadToken        // 403 "Invalid or expired token"
    | AdminRequired   // 403 "Admin access required"
    | AccessDenied    // 403 "Access denied"

  function HttpStatus(d: Denial): (code: nat)
    ensures code == 401 <==> d == TokenRequired
    ensures code != 401 ==> code == 403
  {
    if d == TokenRequired then 401 else 403
  }

  predicate IsSpace(c: char)
  {
    c == ' '
  }

  /** `authHeader && authHeader.split(' ')[1]`: the second space-separated field
      of the header. There is no token when the header is absent, holds no
      space, or its second field is empty (two spaces in a row, or a trailing
      space). */
  function BearerToken(header: Option<string>): (t: Option<string>)
    ensures t.Some? ==> t.value != [] && forall i :: 0 <= i < |t.value| ==> t.value[i] != ' '
    ensures header == None ==> t == None
  {
    match header
    case None => None
    case Some(h) =>
      var k := FirstWhere(h, IsSpace);
      if k == |h| then None
      else
        var rest := h[k + 1..];
        var field := rest[..FirstWhere(rest, IsSpace)];
        if field == [] then None else Some(field)
  }

  /** A header without a space carries no token, whatever it says. */
  lemma NoSpaceNoToken(h: string)
    requires forall i :: 0 <= i < |h| ==> h[i] != ' '
    ensures BearerToken(Some(h)) == None
  {
    FirstWhereIs(h, IsSpace, |h|);
  }

  /** A header whose second field is empty (`<scheme> ` or `<scheme>  ...`,
      two spaces in a row) carries no token either. */
  lemma {:induction false} EmptyFieldNoToken(scheme: string, tail: string)
    requires forall i :: 0 <= i < |scheme| ==> scheme[i] != ' '
    requires tail == [] || tail[0] == ' '
    ensures BearerToken(Some(scheme + " " + tail)) == None
  {
    var h := scheme + " " + tail;
    assert h[|scheme|] == ' ';
    assert forall i :: 0 <= i < |scheme| ==> h[i] == scheme[i];
    FirstWhereIs(h, IsSpace, |scheme|);
    var rest := h[|scheme| + 1..];
    assert rest == tail;
    FirstWhereIs(tail, IsSpace, 0);
  }

  /** `<scheme> <token>`, optionally followed by more space-separated text,
      yields exactly the token. */
  lemma {:induction false} BearerTokenOf(scheme: string, token: string, tail: string)
    requires forall i :: 0 <= i < |scheme| ==> scheme[i] != ' '
    requires token != [] && forall i :: 0 <= i < |token| ==> token[i] != ' '
    requires tail == [] || tail[0] == ' '
    ensures BearerToken(Some(scheme + " " + token + tail)) == Some(token)
  {
    var h := scheme + " " + token + tail;
    assert h[|scheme|] == ' ';
    assert forall i :: 0 <= i < |scheme| ==> h[i] == scheme[i];
    FirstWhereIs(h, IsSpace, |scheme|);
    var rest := h[|scheme| + 1..];
    assert rest == token + tail;
    assert forall i :: 0 <= i < |token| ==> rest[i] == token[i];
    FirstWhereIs(rest, IsSpace, |token|);
    assert rest[..|token|] == token;
  }

  /** authenticateToken (server.js:40-55): 401 without a token, 403 when the
      token does not verify, otherwise the claims it carries become `req.user`. */
  function Authenticate(header: Option<string>, verify: string -> Option<Claims>): (r: Result<Claims, Denial>)
    ensures r == Err(TokenRequired) <==> BearerToken(header) == None
    ensures r == Err(BadToken) <==> BearerToken(header).Some? && verify(BearerToken(header).value) == None
    ensures r.Ok? <==> BearerToken(header).Some? && verify(BearerToken(header).value).Some?
    ensures r.Ok? ==> verify(BearerToken(header).value) == Some(r.value)
  {
    match BearerToken(header)
    case None => Err(TokenRequired)
    case Some(token) =>
      match verify(token)
      case None => Err(BadToken)
      case Some(claims) => Ok(claims)
  }

  /** A token sent as `Bearer <token>` that verifies admits its own claims. */
  lemma AuthenticateBearer(token: string, verify: string -> Option<Claims>, claims: Claims)
    requires token != [] && forall i :: 0 <= i < |token| ==> token[i] != ' '
    requires verify(token) == Some(claims)
    ensures Authenticate(Some("Bearer " + token), verify) == Ok(claims)
  {
    BearerTokenOf("Bearer", token, []);
    assert "Bearer" + " " + token + [] == "Bearer " + token;
  }

  /** requireAdmin (server.js:58-63): only the role `admin` passes. */
  function RequireAdmin(claims: Claims): (r: Result<Claims, Denial>)
    ensures r.Ok? <==> claims.role == ADMIN
    ensures r.Ok? ==> r.value == claims
    ensures r.Err? ==> r.error == AdminRequired
  {
    if claims.role != ADMIN then Err(AdminRequired) else Ok(claims)
  }

  /** `authenticateToken, requireAdmin` in front of an admin endpoint. */
  function AuthenticateAdmin(header: Option<string>, verify: string -> Option<Claims>): (r: Result<Claims, Denial>)
    ensures r.Ok? ==> r.value.role == ADMIN && Authenticate(header, verify) == Ok(r.value)
    ensures Authenticate(header, verify).Err? ==> r == Authenticate(header, verify)
    ensures Authenticate(header, verify).Ok? && Authenticate(header, verify).value.role != ADMIN ==> r == Err(AdminRequired)
    ensures Authenticate(header, verify).Ok? && Authenticate(header, verify).value.role == ADMIN ==> r == Authenticate(header, verify)
  {
    match Authenticate(header, verify)
    case Err(d) => Err(d)
    case Ok(claims) => RequireAdmin(claims)
  }

  /** The ownership test of server.js:682 and server.js:724: an admin may act
      for anyone, anyone else only for their own user id. */
  predicate MayActFor(claims: Claims, studentId: nat)
  {
    claims.role == ADMIN || claims.id == studentId
  }

  /** A caller who is not an admin acts for one student only, the one whose
      id the token carries; an admin acts for every student. */
  lemma MayActForOne(claims: Claims, a: nat, b: nat)
    ensures claims.role != ADMIN && MayActFor(claims, a) && MayActFor(claims, b) ==> a == b == claims.id
    ensures claims.role == ADMIN ==> MayActFor(claims, a)
    ensures MayActFor(claims, claims.id)
  {
  }
}
