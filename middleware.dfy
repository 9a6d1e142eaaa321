/**
 * The request access gate: classify the path, read the four session cookies,
 * and run an ordered first-match rule chain that either lets the request
 * through or redirects it to one of four pages.
 */
module Middleware {
  import opened Wrappers
  import opened Strings
  import opened Constants

  /** The four cookie values the gate reads; a missing cookie is `None`. */
  datatype AuthCookies = AuthCookies(
    authToken: Option<string>,
    userId: Option<string>,
    sysadminToken: Option<string>,
    sysadminId: Option<string>)

  /** The route categories, each a plain match on the path. */
  datatype RouteChecks = RouteChecks(
    isLoginPage: bool,
    isApiRoute: bool,
    isSysadminRoute: bool,
    isUnauthorizedPage: bool,
    isHomePage: bool)

  /** What the gate does with a request: pass it on, or redirect to a path. */
  datatype Decision = Allow | Redirect(target: string)

  /** The only paths the gate ever redirects to. */
  const RedirectTargets: set<string> := {LoginRoute, HomeRoute, SysadminRoute, UnauthorizedRoute}

  /** `request.cookies.get(name)?.value`, the jar mapping cookie names to values. */
  function CookieValue(jar: map<string, string>, name: string): Option<string>
  {
    if name in jar then Some(jar[name]) else None
  }

  /** Reads the four session cookies from the request's cookie jar. */
  function GetAuthCookies(jar: map<string, string>): (c: AuthCookies)
  {
    AuthCookies(
      CookieValue(jar, UserTokenCookie),
      CookieValue(jar, UserIdCookie),
      CookieValue(jar, SysadminTokenCookie),
      CookieValue(jar, SysadminIdCookie))
  }

  /** Classifies a path: exact matches for three pages, raw prefixes for two areas. */
  function GetRouteChecks(pathname: string): (r: RouteChecks)
  {
    RouteChecks(
      pathname == LoginRoute,
      StartsWith(pathname, ApiRoute),
      StartsWith(pathname, SysadminRoute),
      pathname == UnauthorizedRoute,
      pathname == HomeRoute)
  }

  /** A user session is present when both its token and its id are non-empty. */
  predicate HasUserAuth(c: AuthCookies)
  {
    Truthy(c.authToken) && Truthy(c.userId)
  }

  /** A sysadmin session is present when both its token and its id are non-empty. */
  predicate HasSysadminAuth(c: AuthCookies)
  {
    Truthy(c.sysadminToken) && Truthy(c.sysadminId)
  }

  /** The rule chain of `middleware`; the first rule that fires decides. */
  function Gate(pathname: string, cookies: AuthCookies): (d: Decision)
    ensures d.Redirect? ==> d.target in RedirectTargets
  {
    var routes := GetRouteChecks(pathname);
    if routes.isApiRoute || routes.isUnauthorizedPage then Allow
    else if routes.isSysadminRoute then
      (if HasUserAuth(cookies) then Redirect(UnauthorizedRoute) else Allow)
    else if routes.isHomePage && HasSysadminAuth(cookies) then Redirect(SysadminRoute)
    else if HasSysadminAuth(cookies) && !routes.isHomePage then Redirect(UnauthorizedRoute)
    else if !HasUserAuth(cookies) && !routes.isLoginPage then Redirect(LoginRoute)
    else if HasUserAuth(cookies) && routes.isLoginPage then Redirect(HomeRoute)
    else Allow
  }

  /** The whole middleware: cookies from the jar, then the rule chain. */
  function Handle(pathname: string, jar: map<string, string>): (d: Decision)
    ensures d.Redirect? ==> d.target in RedirectTargets
  {
    Gate(pathname, GetAuthCookies(jar))
  }

  // ---------------------------------------------------------------------------
  // An independent reading of the gate: one primary category per path, and a
  // table from (category, user session, sysadmin session) to a decision.

  datatype Category = Api | SysadminArea | UnauthorizedPage | HomePage | LoginPage | OtherPage

  /** The one primary category of a path. */
  function CategoryOf(pathname: string): Category
  {
    if StartsWith(pathname, ApiRoute) then Api
    else if StartsWith(pathname, SysadminRoute) then SysadminArea
    else if pathname == UnauthorizedRoute then UnauthorizedPage
    else if pathname == HomeRoute then HomePage
    else if pathname == LoginRoute then LoginPage
    else OtherPage
  }

  /** The access table: sysadmin sessions take precedence over user sessions on pages. */
  function Table(category: Category, user: bool, admin: bool): Decision
  {
    match category
    case Api => Allow
    case UnauthorizedPage => Allow
    case SysadminArea => if user then Redirect(UnauthorizedRoute) else Allow
    case HomePage => if admin then Redirect(SysadminRoute) else if user then Allow else Redirect(LoginRoute)
    case LoginPage => if admin then Redirect(UnauthorizedRoute) else if user then Redirect(HomeRoute) else Allow
    case OtherPage => if admin then Redirect(UnauthorizedRoute) else if user then Allow else Redirect(LoginRoute)
  }

  /** A prefix fixes the characters it covers. */
  lemma PrefixChar(s: string, p: string, i: int)
    requires 0 <= i < |p|
    ensures StartsWith(s, p) ==> s[i] == p[i]
  {
    if StartsWith(s, p) {
      assert s[..|p|][i] == s[i];
    }
  }

  /** None of the redirect targets other than the sysadmin root lies under a prefix route. */
  lemma TargetsOutsidePrefixes()
    ensures !StartsWith(LoginRoute, ApiRoute) && !StartsWith(LoginRoute, SysadminRoute)
    ensures !StartsWith(HomeRoute, ApiRoute) && !StartsWith(HomeRoute, SysadminRoute)
    ensures !StartsWith(UnauthorizedRoute, ApiRoute) && !StartsWith(UnauthorizedRoute, SysadminRoute)
    ensures !StartsWith(SysadminRoute, ApiRoute) && StartsWith(SysadminRoute, SysadminRoute)
  {
    PrefixChar(LoginRoute, ApiRoute, 1);
    PrefixChar(UnauthorizedRoute, ApiRoute, 1);
    PrefixChar(UnauthorizedRoute, SysadminRoute, 1);
    PrefixChar(SysadminRoute, ApiRoute, 1);
  }

  /** At most one route check holds for any path: the categories do not overlap. */
  lemma RouteChecksExclusive(pathname: string)
    ensures var r := GetRouteChecks(pathname);
      (if r.isLoginPage then 1 else 0) + (if r.isApiRoute then 1 else 0)
      + (if r.isSysadminRoute then 1 else 0) + (if r.isUnauthorizedPage then 1 else 0)
      + (if r.isHomePage then 1 else 0) <= 1
  {
    var r := GetRouteChecks(pathname);
    TargetsOutsidePrefixes();
    PrefixChar(pathname, ApiRoute, 1);
    PrefixChar(pathname, SysadminRoute, 1);
  }

  /** The rule chain agrees with the access table on every input. */
  lemma GateMatchesTable(pathname: string, cookies: AuthCookies)
    ensures Gate(pathname, cookies) == Table(CategoryOf(pathname), HasUserAuth(cookies), HasSysadminAuth(cookies))
  {
    RouteChecksExclusive(pathname);
  }

  // ---------------------------------------------------------------------------
  // Precedence of the rules.

  /** API paths and the unauthorized page pass, whatever the cookies. */
  lemma ApiAndUnauthorizedAlwaysAllowed(pathname: string, cookies: AuthCookies)
    requires StartsWith(pathname, ApiRoute) || pathname == UnauthorizedRoute
    ensures Gate(pathname, cookies) == Allow
  {
  }

  /** The sysadmin area turns away exactly the user sessions, even beside a sysadmin session. */
  lemma SysadminAreaBlocksOnlyUsers(pathname: string, cookies: AuthCookies)
    requires StartsWith(pathname, SysadminRoute)
    ensures Gate(pathname, cookies) == Redirect(UnauthorizedRoute) <==> HasUserAuth(cookies)
    ensures Gate(pathname, cookies) == Allow <==> !HasUserAuth(cookies)
  {
    PrefixChar(pathname, ApiRoute, 1);
    PrefixChar(pathname, SysadminRoute, 1);
  }

  /** A sysadmin session on the home page goes to the sysadmin area, whatever else is present. */
  lemma SysadminHomeFunnel(cookies: AuthCookies)
    requires HasSysadminAuth(cookies)
    ensures Gate(HomeRoute, cookies) == Redirect(SysadminRoute)
  {
  }

  /** A sysadmin session may not use any other page, the login page included. */
  lemma SysadminBarredFromUserPages(pathname: string, cookies: AuthCookies)
    requires HasSysadminAuth(cookies)
    requires !StartsWith(pathname, ApiRoute) && !StartsWith(pathname, SysadminRoute)
    requires pathname != UnauthorizedRoute && pathname != HomeRoute
    ensures Gate(pathname, cookies) == Redirect(UnauthorizedRoute)
  {
  }

  /** Without any session every page but the login page sends the caller to log in. */
  lemma NoSessionGoesToLogin(pathname: string, cookies: AuthCookies)
    requires !HasUserAuth(cookies) && !HasSysadminAuth(cookies)
    requires !StartsWith(pathname, ApiRoute) && !StartsWith(pathname, SysadminRoute)
    requires pathname != UnauthorizedRoute
    ensures Gate(pathname, cookies) == Redirect(LoginRoute) <==> pathname != LoginRoute
    ensures Gate(pathname, cookies) == Allow <==> pathname == LoginRoute
  {
  }

  /** A user session (without a sysadmin one) is sent home from the login page and let in elsewhere. */
  lemma UserSessionPages(pathname: string, cookies: AuthCookies)
    requires HasUserAuth(cookies) && !HasSysadminAuth(cookies)
    requires !StartsWith(pathname, ApiRoute) && !StartsWith(pathname, SysadminRoute)
    ensures pathname == LoginRoute ==> Gate(pathname, cookies) == Redirect(HomeRoute)
    ensures pathname != LoginRoute ==> Gate(pathname, cookies) == Allow
  {
  }

  /** Session presence is truthiness only: a missing or empty half makes the pair absent. */
  lemma PartialPairIsAbsent(pathname: string, cookies: AuthCookies)
    ensures !Truthy(cookies.authToken) || !Truthy(cookies.userId) ==>
      Gate(pathname, cookies) == Gate(pathname, cookies.(authToken := None, userId := None))
    ensures !Truthy(cookies.sysadminToken) || !Truthy(cookies.sysadminId) ==>
      Gate(pathname, cookies) == Gate(pathname, cookies.(sysadminToken := None, sysadminId := None))
  {
  }

  /** The gate never looks at a token's value: any non-empty token counts. */
  lemma AnyTokenValueCounts(pathname: string, cookies: AuthCookies, t: string, t': string)
    requires t != "" && t' != ""
    ensures Gate(pathname, cookies.(authToken := Some(t))) == Gate(pathname, cookies.(authToken := Some(t')))
    ensures Gate(pathname, cookies.(sysadminToken := Some(t))) == Gate(pathname, cookies.(sysadminToken := Some(t')))
  {
  }

  /** Prefix matching is raw: "/apiary" is an API path and "/sysadminX" is in the sysadmin area. */
  lemma PrefixesAreRaw()
    ensures GetRouteChecks("/apiary").isApiRoute
    ensures GetRouteChecks("/sysadminX").isSysadminRoute
  {
    assert "/apiary"[..4] == "/api";
    assert "/sysadminX"[..9] == "/sysadmin";
  }

  /** Only the four session cookies of the jar influence the decision. */
  lemma OnlySessionCookiesMatter(pathname: string, jar: map<string, string>, jar': map<string, string>)
    requires forall name :: name in {UserTokenCookie, UserIdCookie, SysadminTokenCookie, SysadminIdCookie} ==>
      CookieValue(jar, name) == CookieValue(jar', name)
    ensures Handle(pathname, jar) == Handle(pathname, jar')
  {
    assert GetAuthCookies(jar) == GetAuthCookies(jar') by {
      assert CookieValue(jar, UserTokenCookie) == CookieValue(jar', UserTokenCookie);
      assert CookieValue(jar, UserIdCookie) == CookieValue(jar', UserIdCookie);
      assert CookieValue(jar, SysadminTokenCookie) == CookieValue(jar', SysadminTokenCookie);
      assert CookieValue(jar, SysadminIdCookie) == CookieValue(jar', SysadminIdCookie);
    }
  }

  // ---------------------------------------------------------------------------
  // No redirect loops.

  /**
   * Following a redirect with the same cookies settles at once, except that a
   * sysadmin-area redirect met by a user session takes one more hop, to the
   * unauthorized page, which always lets the request through.
   */
  lemma RedirectSettles(pathname: string, cookies: AuthCookies)
    requires Gate(pathname, cookies).Redirect?
    ensures var t := Gate(pathname, cookies).target;
      || Gate(t, cookies) == Allow
      || (t == SysadminRoute && HasUserAuth(cookies)
          && Gate(t, cookies) == Redirect(UnauthorizedRoute)
          && Gate(UnauthorizedRoute, cookies) == Allow)
  {
    TargetsOutsidePrefixes();
  }

  /** The number of redirects a browser follows from a path before a page is served. */
  function Hops(pathname: string, cookies: AuthCookies, fuel: nat): nat
    decreases fuel
  {
    if fuel == 0 then 0
    else match Gate(pathname, cookies)
      case Allow => 0
      case Redirect(t) => 1 + Hops(t, cookies, fuel - 1)
  }

  /** From any path the browser reaches an allowed page after at most two redirects. */
  lemma {:induction false} AtMostTwoHops(pathname: string, cookies: AuthCookies, fuel: nat)
    ensures Hops(pathname, cookies, fuel) <= 2
  {
    if fuel > 0 && Gate(pathname, cookies).Redirect? {
      var t := Gate(pathname, cookies).target;
      RedirectSettles(pathname, cookies);
      if Gate(t, cookies).Redirect? && fuel > 1 {
        assert Gate(UnauthorizedRoute, cookies) == Allow;
        assert Hops(t, cookies, fuel - 1) == 1 + Hops(UnauthorizedRoute, cookies, fuel - 2);
      }
    }
  }
}
