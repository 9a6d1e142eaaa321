/** The sysadmin service: its configuration check and its credential check. */
module SysadminServices {
  import opened Wrappers
  import opened Constants
  import opened Bcrypt
  import opened Schemas
  import opened Store
  import opened Sequences

  /** A configured service over the sysadmins collection. */
  datatype SysadminService = SysadminService(dbName: string, collectionName: string, admins: Collection<Sysadmin>)

  /** The result of `verifyCredentials`: an admin without password, or an error message. */
  datatype AdminVerified = AdminVerified(admin: Option<PublicSysadmin>, error: Option<string>)

  const ConfigurationError := "sysadmin service configuration error"

  /** The constructor: both the database name and the collection name must be set and non-empty. */
  function NewSysadminService(dbName: Option<string>, collectionName: Option<string>, admins: Collection<Sysadmin>)
    : (r: Outcome<SysadminService>)
    ensures r.Ok? <==> Truthy(dbName) && Truthy(collectionName)
    ensures r.Thrown? ==> r.message == ConfigurationError
    ensures r.Ok? ==> r.value == SysadminService(dbName.value, collectionName.value, admins)
  {
    if !Truthy(dbName) || !Truthy(collectionName) then Thrown(ConfigurationError)
    else Ok(SysadminService(dbName.value, collectionName.value, admins))
  }

  /** `findById(id)` on the sysadmins collection. */
  function FindById(svc: SysadminService, id: string): (r: Outcome<Option<Sysadmin>>)
    ensures r.Ok? && r.value.Some? ==> r.value.value in svc.admins.docs && r.value.value.id == Some(id)
    ensures r.Thrown? <==> svc.admins.fault.Some?
    ensures r.Ok? ==> (r.value.None? <==> forall k :: 0 <= k < |svc.admins.docs| ==> svc.admins.docs[k].id != Some(id))
  {
    assert forall k :: 0 <= k < |svc.admins.docs| && svc.admins.docs[k].id == Some(id) ==>
      SysadminIdIs(id)(svc.admins.docs[k]);
    FindOne(svc.admins, SysadminIdIs(id))
  }

  /** `verifyCredentials`: the first admin with the username, if the password verifies against it. */
  function VerifyCredentials(svc: SysadminService, username: string, password: string): (r: AdminVerified)
    ensures var found := Find(svc.admins.docs, SysadminUsernameIs(username));
      && (r.admin.Some? <==> svc.admins.fault.None? && found.Some? && Verify(password, found.value.password))
      && (r.admin.Some? ==> r.admin.value == SysadminWithoutPassword(found.value) && r.error.None?)
    ensures r.admin.None? ==> r.error == Some(if svc.admins.fault.Some? then VerifyFailed else InvalidCredentials)
  {
    match FindOne(svc.admins, SysadminUsernameIs(username))
    case Thrown(_) => AdminVerified(None, Some(VerifyFailed))
    case Ok(None) => AdminVerified(None, Some(InvalidCredentials))
    case Ok(Some(admin)) =>
      if !Verify(password, admin.password) then AdminVerified(None, Some(InvalidCredentials))
      else AdminVerified(Some(SysadminWithoutPassword(admin)), None)
  }

  /** An unknown username and a wrong password are reported identically. */
  lemma UnknownAndWrongPasswordLookAlike(svc: SysadminService, username: string, password: string, stored: string)
    requires svc.admins.fault.None?
    ensures Find(svc.admins.docs, SysadminUsernameIs(username)).None? ==>
      VerifyCredentials(svc, username, password) == AdminVerified(None, Some(InvalidCredentials))
    ensures var found := Find(svc.admins.docs, SysadminUsernameIs(username));
      found.Some? && found.value.password == Hash(stored) && password != stored ==>
      VerifyCredentials(svc, username, password) == AdminVerified(None, Some(InvalidCredentials))
  {
  }

  /** With the stored digest of `stored`, exactly that password logs the admin in. */
  lemma AcceptsExactlyStoredPassword(svc: SysadminService, username: string, password: string, stored: string)
    requires svc.admins.fault.None?
    requires var found := Find(svc.admins.docs, SysadminUsernameIs(username));
      found.Some? && found.value.password == Hash(stored)
    ensures VerifyCredentials(svc, username, password).admin.Some? <==> password == stored
  {
    VerifyOnlyOwnHash(password, stored);
  }
}
