/**
 * `POST /api/auth/change-password`: the caller must be the current user; the
 * body is then checked, the old password verified against the stored hash,
 * a new password equal to the current one refused, and the new hash stored.
 */
module ChangePasswordRoute {
  import opened Wrappers
  import opened Bcrypt
  import opened Schemas
  import opened Middleware
  import opened AuthUtils
  import opened UserServices
  import ChangePasswordModal

  const Unauthorized := "Unauthorized"
  const PasswordsRequired := "Old password and new password are required"
  const NotFound := "User not found"
  const Incorrect := "Current password is incorrect"
  const SameAsCurrent := "New password must be different from current password"
  const UpdateFailed := "Failed to update password"
  const Changed := "Password changed successfully"

  /** The JSON body; a field the client left out is None. */
  datatype PasswordChange = PasswordChange(oldPassword: Option<string>, newPassword: Option<string>)

  datatype PasswordReply = PasswordReply(status: int, message: Option<string>, error: Option<string>)

  function Error(status: int, error: string): PasswordReply
  {
    PasswordReply(status, None, Some(error))
  }

  /** The body names both passwords and the new one is long enough. */
  predicate WellFormed(body: PasswordChange)
  {
    && Truthy(body.oldPassword) && Truthy(body.newPassword)
    && |body.newPassword.value| >= ChangePasswordModal.MinPasswordLength
  }

  /** The request carries the session of a stored user with an id. */
  predicate SignedIn(cookies: AuthCookies, svc: UserService)
    reads svc
  {
    var current := GetCurrentUser(cookies, svc);
    current.Some? && Truthy(current.value.id)
  }

  /**
   * The route. `body` is None when the request body is not JSON; `now` is
   * the update time. The store's availability (`svc.fault`) is fixed for the
   * whole request, and the update document is taken as applied (see
   * `UserService.UpdatePassword`). Under those two assumptions and the table
   * invariant, the lookup by id finds the user the guard found. So the 404
   * answer, the failed-lookup 500 and the failed-update 500 do not occur.
   */
  method Post(svc: UserService, cookies: AuthCookies, body: Option<PasswordChange>, now: Timestamp)
    returns (resp: PasswordReply)
    requires svc.Valid()
    modifies svc
    ensures svc.Valid()
    ensures resp.status != 200 ==> svc.docs == old(svc.docs)
    ensures !old(SignedIn(cookies, svc)) ==> resp == Error(401, Unauthorized)
    ensures old(SignedIn(cookies, svc)) && body.None? ==>
      resp == Error(500, ChangePasswordModal.ChangeFailed)
    ensures old(SignedIn(cookies, svc)) && body.Some?
            && !(Truthy(body.value.oldPassword) && Truthy(body.value.newPassword)) ==>
      resp == Error(400, PasswordsRequired)
    ensures old(SignedIn(cookies, svc)) && body.Some?
            && Truthy(body.value.oldPassword) && Truthy(body.value.newPassword)
            && |body.value.newPassword.value| < ChangePasswordModal.MinPasswordLength ==>
      resp == Error(400, ChangePasswordModal.TooShort)
    ensures old(SignedIn(cookies, svc)) && body.Some? && WellFormed(body.value) ==>
      exists k :: && 0 <= k < |old(svc.docs)| && old(svc.docs)[k].id == cookies.userId
                  && ChangeSettled(old(svc.docs), k, body.value, now, svc.docs, resp)
    ensures resp.status != 404 && (resp.status == 500 ==> body.None?)
  {
    var user := GetCurrentUser(cookies, svc);
    if user.None? || !Truthy(user.value.id) {
      return Error(401, Unauthorized);
    }
    if body.None? {
      return Error(500, ChangePasswordModal.ChangeFailed);
    }
    var oldPassword, newPassword := body.value.oldPassword, body.value.newPassword;
    if !Truthy(oldPassword) || !Truthy(newPassword) {
      return Error(400, PasswordsRequired);
    }
    if |newPassword.value| < ChangePasswordModal.MinPasswordLength {
      return Error(400, ChangePasswordModal.TooShort);
    }
    ghost var k :| 0 <= k < |svc.docs| && svc.docs[k].id == cookies.userId
                   && user.value == UserWithoutPassword(svc.docs[k]);
    resp := ChangeStoredPassword(svc, user.value.id.value, body.value, now);
  }

  /**
   * The second half of the route: look the user up by id, check the old
   * password against the stored hash, refuse a new password that matches it,
   * and store the new hash.
   */
  method ChangeStoredPassword(svc: UserService, id: string, body: PasswordChange, now: Timestamp)
    returns (resp: PasswordReply)
    requires svc.Valid() && WellFormed(body)
    modifies svc
    ensures svc.Valid()
    ensures resp.status != 200 ==> svc.docs == old(svc.docs)
    ensures svc.fault.Some? ==> resp == Error(500, ChangePasswordModal.ChangeFailed)
    ensures svc.fault.None? && (forall k :: 0 <= k < |old(svc.docs)| ==> old(svc.docs)[k].id != Some(id)) ==>
      resp == Error(404, NotFound)
    ensures forall k :: 0 <= k < |old(svc.docs)| && old(svc.docs)[k].id == Some(id) && svc.fault.None? ==>
      ChangeSettled(old(svc.docs), k, body, now, svc.docs, resp)
  {
    var oldPassword, newPassword := body.oldPassword.value, body.newPassword.value;
    match svc.FindById(id) {
      case Thrown(_) =>
        return Error(500, ChangePasswordModal.ChangeFailed);
      case Ok(None) =>
        return Error(404, NotFound);
      case Ok(Some(dbUser)) =>
        if !Verify(oldPassword, dbUser.password) {
          return Error(401, Incorrect);
        }
        if Verify(newPassword, dbUser.password) {
          return Error(400, SameAsCurrent);
        }
        ghost var docs := svc.docs;
        var success := svc.UpdatePassword(id, newPassword, now);
        if !success {
          return Error(500, UpdateFailed);
        }
        ghost var j :| && 0 <= j < |docs| && docs[j].id == Some(id)
                       && svc.docs == docs[j := docs[j].(password := Hash(newPassword), updatedAt := now)];
        forall k | 0 <= k < |docs| && docs[k].id == Some(id) ensures k == j {
          UniqueIdIndex(docs, j, k);
        }
        resp := PasswordReply(200, Some(Changed), None);
    }
  }

  /** With distinct ids, two documents with the same id are the same document. */
  lemma UniqueIdIndex(docs: seq<User>, j: nat, k: nat)
    requires IdsDistinct(docs) && j < |docs| && k < |docs| && docs[j].id == docs[k].id
    ensures j == k
  {
    if j < k {} else if k < j {}
  }

  /**
   * What happens to a well-formed request of the signed-in user whose document
   * is `docs[k]`: the old password must verify against the stored hash and the
   * new one must not; then exactly that document gets the new hash.
   */
  ghost predicate ChangeSettled(docs: seq<User>, k: nat, body: PasswordChange, now: Timestamp,
                          docs': seq<User>, resp: PasswordReply)
    requires k < |docs| && WellFormed(body)
  {
    var stored := docs[k].password;
    var oldPassword, newPassword := body.oldPassword.value, body.newPassword.value;
    && (!Verify(oldPassword, stored) ==> resp == Error(401, Incorrect))
    && (Verify(oldPassword, stored) && Verify(newPassword, stored) ==> resp == Error(400, SameAsCurrent))
    && (Verify(oldPassword, stored) && !Verify(newPassword, stored) ==>
          && resp == PasswordReply(200, Some(Changed), None)
          && docs' == docs[k := docs[k].(password := Hash(newPassword), updatedAt := now)])
  }

  /** After the change, the new password opens the account and the old one no longer does. */
  lemma NewPasswordReplacesOld(svc: UserService, k: nat, oldPassword: string, newPassword: string)
    requires svc.Valid() && svc.fault.None? && k < |svc.docs| && svc.docs[k].username != ""
    requires svc.docs[k].password == Hash(newPassword) && oldPassword != newPassword
    ensures svc.VerifyCredentials(svc.docs[k].username, newPassword).user == Some(UserWithoutPassword(svc.docs[k]))
    ensures svc.VerifyCredentials(svc.docs[k].username, oldPassword).user.None?
  {
    var name := svc.docs[k].username;
    var v := svc.VerifyCredentials(name, newPassword);
    assert Verify(newPassword, svc.docs[k].password);
    var j :| && 0 <= j < |svc.docs| && svc.docs[j].username == name
             && v.user.value == UserWithoutPassword(svc.docs[j]);
    assert j == k by {
      if j < k {} else if k < j {}
    }
  }

  /**
   * A form the dialog accepts passes the route's body checks, and when the
   * user's stored hash is that of the old password, also both hash checks.
   */
  lemma DialogFormPassesRoute(oldPassword: string, newPassword: string, confirmPassword: string)
    requires ChangePasswordModal.Acceptable(oldPassword, newPassword, confirmPassword)
    ensures WellFormed(PasswordChange(Some(oldPassword), Some(newPassword)))
    ensures Verify(oldPassword, Hash(oldPassword)) && !Verify(newPassword, Hash(oldPassword))
  {
  }
}
