/**
 * `POST /api/auth/login`: checks the body, verifies the credentials, and on
 * success sets the user session cookies on the response.
 */
module LoginRoute {
  import opened Wrappers
  import opened Constants
  import opened Schemas
  import opened Middleware
  import opened AuthUtils
  import opened UserServices

  const CredentialsRequired := "Username and password are required"
  const LoginSuccessful := "Login successful"
  const LoginFailed := "Failed to login"

  /** A response cookie with the options the route sets. */
  datatype Cookie = Cookie(value: string, path: string, maxAge: int, httpOnly: bool, sameSite: string)

  /** Both session cookies: the whole site, one day, readable by scripts, same-site only. */
  function SessionCookie(value: string): Cookie
  {
    Cookie(value, HomeRoute, UserCookieMaxAge, false, "strict")
  }

  /** The cookies of a response being built; `set` replaces any cookie of the same name. */
  class ResponseCookies {
    var jar: map<string, Cookie>

    constructor ()
      ensures jar == map[]
    {
      jar := map[];
    }

    method Set(name: string, cookie: Cookie)
      modifies this
      ensures jar == old(jar)[name := cookie]
    {
      jar := jar[name := cookie];
    }
  }

  /** The JSON body; a field the client left out is None. */
  datatype Credentials = Credentials(username: Option<string>, password: Option<string>)

  datatype LoginResponse = LoginResponse(
    status: int,
    user: Option<PublicUser>,
    message: Option<string>,
    error: Option<string>,
    cookies: map<string, Cookie>)

  /** The cookie values a later request carries back. */
  function CookieValues(jar: map<string, Cookie>): (values: map<string, string>)
    ensures values.Keys == jar.Keys
    ensures forall name :: name in jar ==> values[name] == jar[name].value
  {
    map name | name in jar :: jar[name].value
  }

  /** The cookies a successful login sets for `user`. */
  function SessionJar(user: PublicUser): map<string, Cookie>
  {
    var token := map[UserTokenCookie := SessionCookie(UserValidToken)];
    if Truthy(user.id) then token[UserIdCookie := SessionCookie(user.id.value)] else token
  }

  /** The session is the user token, plus the user id exactly when the user has one; never a sysadmin cookie. */
  lemma SessionJarShape(user: PublicUser)
    ensures var jar := SessionJar(user);
      && jar.Keys <= {UserTokenCookie, UserIdCookie}
      && UserTokenCookie in jar && jar[UserTokenCookie] == SessionCookie(UserValidToken)
      && (UserIdCookie in jar <==> Truthy(user.id))
      && (UserIdCookie in jar ==> jar[UserIdCookie] == SessionCookie(user.id.value))
  {
  }

  /**
   * A request carrying the session of a stored user passes the gate as a user
   * (not as a sysadmin) and the server-side guard returns that same user.
   */
  lemma SessionRecognised(svc: UserService, k: nat)
    requires svc.Valid() && svc.fault.None? && k < |svc.docs|
    ensures var user := UserWithoutPassword(svc.docs[k]);
      var c := GetAuthCookies(CookieValues(SessionJar(user)));
      && HasUserAuth(c) && !HasSysadminAuth(c) && IsAuthenticated(c)
      && GetCurrentUser(c, svc) == Some(user)
  {
    var user := UserWithoutPassword(svc.docs[k]);
    var values := CookieValues(SessionJar(user));
    assert values[UserTokenCookie] == UserValidToken;
    assert values[UserIdCookie] == svc.docs[k].id.value;
    assert SysadminTokenCookie !in values;
    FindByDistinctId(svc.docs, k);
  }

  /**
   * The route. `body` is None when the request body is not JSON. On success
   * the response sets exactly the user token and, when the user has an id,
   * the user id; a following request with those cookies is recognised as
   * that same user by the server-side guard.
   */
  method Post(svc: UserService, body: Option<Credentials>) returns (resp: LoginResponse)
    ensures body.None? ==> resp == LoginResponse(500, None, None, Some(LoginFailed), map[])
    ensures body.Some? && !(Truthy(body.value.username) && Truthy(body.value.password)) ==>
      resp == LoginResponse(400, None, None, Some(CredentialsRequired), map[])
    ensures body.Some? && Truthy(body.value.username) && Truthy(body.value.password) ==>
      var v := svc.VerifyCredentials(body.value.username.value, body.value.password.value);
      && (v.user.None? ==> resp == LoginResponse(401, None, None, v.error, map[]))
      && (v.user.Some? ==> resp.status == 200 && resp.user == v.user)
    ensures resp.status != 200 ==> resp.cookies == map[] && resp.user.None?
    ensures resp.status == 200 ==>
      && resp.message == Some(LoginSuccessful) && resp.error.None? && resp.user.Some?
      && resp.cookies == SessionJar(resp.user.value)
    ensures resp.status == 200 && svc.Valid() ==>
      var c := GetAuthCookies(CookieValues(resp.cookies));
      && HasUserAuth(c) && !HasSysadminAuth(c) && IsAuthenticated(c)
      && GetCurrentUser(c, svc) == resp.user
  {
    if body.None? {
      return LoginResponse(500, None, None, Some(LoginFailed), map[]);
    }
    var username, password := body.value.username, body.value.password;
    if !Truthy(username) || !Truthy(password) {
      return LoginResponse(400, None, None, Some(CredentialsRequired), map[]);
    }
    var result := svc.VerifyCredentials(username.value, password.value);
    if result.user.None? {
      var error := if Truthy(result.error) then result.error.value else InvalidCredentials;
      return LoginResponse(401, None, None, Some(error), map[]);
    }
    var user := result.user.value;
    var cookies := new ResponseCookies();
    cookies.Set(UserTokenCookie, SessionCookie(UserValidToken));
    if Truthy(user.id) {
      cookies.Set(UserIdCookie, SessionCookie(user.id.value));
    }
    resp := LoginResponse(200, result.user, Some(LoginSuccessful), None, cookies.jar);
    assert cookies.jar == SessionJar(user);
    if svc.Valid() {
      var k :| && 0 <= k < |svc.docs| && svc.docs[k].username == username.value
               && user == UserWithoutPassword(svc.docs[k]);
      SessionRecognised(svc, k);
    }
  }
}
