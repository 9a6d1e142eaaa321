/**
 * The server-side user guards: the request is authenticated when the user
 * token is exactly the valid token and a user id is present; the current user
 * is then looked up by id, and returned without the password.
 */
module AuthUtils {
  import opened Wrappers
  import opened Constants
  import opened Schemas
  import opened Middleware
  import opened UserServices

  /** `isAuthenticated(request)`: an exact token comparison, unlike the gate's truthiness test. */
  predicate IsAuthenticated(c: AuthCookies)
  {
    c.authToken == Some(UserValidToken) && Truthy(c.userId)
  }

  /** `getCurrentUser(request)`: null unless the token is valid, an id is given and a user has that id. */
  function GetCurrentUser(c: AuthCookies, svc: UserService): (r: Option<PublicUser>)
    reads svc
    ensures r.Some? ==> IsAuthenticated(c) && svc.fault.None?
    ensures r.Some? ==> exists k :: 0 <= k < |svc.docs| && svc.docs[k].id == c.userId
                                   && r.value == UserWithoutPassword(svc.docs[k])
    ensures r.None? <==> || !IsAuthenticated(c)
                         || svc.fault.Some?
                         || forall k :: 0 <= k < |svc.docs| ==> svc.docs[k].id != c.userId
  {
    if !Truthy(c.authToken) || c.authToken.value != UserValidToken then None
    else if !Truthy(c.userId) then None
    else
      match svc.FindById(c.userId.value)
      case Thrown(_) => None
      case Ok(None) => None
      case Ok(Some(u)) =>
        assert exists k :: 0 <= k < |svc.docs| && svc.docs[k] == u;
        Some(UserWithoutPassword(u))
  }

  /** Without the valid token the answer is null whatever the store holds: no lookup is made. */
  lemma NoLookupWithoutValidToken(c: AuthCookies, svc: UserService, svc': UserService)
    requires c.authToken != Some(UserValidToken)
    ensures GetCurrentUser(c, svc) == None && GetCurrentUser(c, svc') == None
  {
  }

  /** A database failure during the lookup ends in null, never in an error. */
  lemma LookupFailureIsNull(c: AuthCookies, svc: UserService)
    requires svc.fault.Some?
    ensures GetCurrentUser(c, svc) == None
  {
  }

  /** A current user implies an authenticated request, which implies the gate's user session. */
  lemma CurrentUserImpliesGateSession(c: AuthCookies, svc: UserService)
    ensures GetCurrentUser(c, svc).Some? ==> IsAuthenticated(c)
    ensures IsAuthenticated(c) ==> HasUserAuth(c)
  {
  }

  /** The converse fails: the gate admits a session whose token is not the valid one. */
  lemma GateAdmitsForgedToken()
    ensures var c := AuthCookies(Some("forged"), Some("u1"), None, None);
      HasUserAuth(c) && !IsAuthenticated(c)
  {
  }
}
