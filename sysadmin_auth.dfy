/** The server-side sysadmin guards. */
module SysadminAuth {
  import opened Wrappers
  import opened Constants
  import opened Schemas
  import opened Middleware
  import opened SysadminServices

  /** The message of the 401 answer `requireSysadmin` gives. */
  const SysadminRequired := "Unauthorized \U{2013} sysadmin access required"

  /** `getCurrentSysadmin(request)`: null unless the token is exactly the sysadmin token, an id is given and an admin has it. */
  function GetCurrentSysadmin(c: AuthCookies, svc: SysadminService): (r: Option<PublicSysadmin>)
    ensures r.Some? ==> c.sysadminToken == Some(SysadminValidToken) && Truthy(c.sysadminId)
    ensures r.Some? ==> svc.admins.fault.None?
    ensures r.Some? ==> exists k :: 0 <= k < |svc.admins.docs| && svc.admins.docs[k].id == c.sysadminId
                                   && r.value == SysadminWithoutPassword(svc.admins.docs[k])
    ensures r.None? <==> || c.sysadminToken != Some(SysadminValidToken)
                         || !Truthy(c.sysadminId)
                         || svc.admins.fault.Some?
                         || forall k :: 0 <= k < |svc.admins.docs| ==> svc.admins.docs[k].id != c.sysadminId
  {
    if c.sysadminToken != Some(SysadminValidToken) || !Truthy(c.sysadminId) then None
    else
      match FindById(svc, c.sysadminId.value)
      case Thrown(_) => None
      case Ok(None) => None
      case Ok(Some(admin)) => Some(SysadminWithoutPassword(admin))
  }

  /** What `requireSysadmin` hands back: the admin, or a JSON error response. */
  datatype Guarded = Admin(admin: PublicSysadmin) | Rejected(status: int, error: string)

  /** `requireSysadmin(request)`: a 401 exactly when there is no current sysadmin. */
  function RequireSysadmin(c: AuthCookies, svc: SysadminService): (r: Guarded)
    ensures r.Rejected? <==> GetCurrentSysadmin(c, svc).None?
    ensures r.Rejected? ==> r.status == 401 && r.error == SysadminRequired
    ensures r.Admin? ==> GetCurrentSysadmin(c, svc) == Some(r.admin)
  {
    match GetCurrentSysadmin(c, svc)
    case None => Rejected(401, SysadminRequired)
    case Some(admin) => Admin(admin)
  }

  /** A current sysadmin implies the gate's sysadmin session (but not the other way round). */
  lemma CurrentSysadminImpliesGateSession(c: AuthCookies, svc: SysadminService)
    ensures GetCurrentSysadmin(c, svc).Some? ==> HasSysadminAuth(c)
  {
  }

  /** A database failure during the lookup ends in null, never in an error. */
  lemma LookupFailureIsNull(c: AuthCookies, svc: SysadminService)
    requires svc.admins.fault.Some?
    ensures GetCurrentSysadmin(c, svc) == None
    ensures RequireSysadmin(c, svc) == Rejected(401, SysadminRequired)
  {
  }
}
