/**
 * The change-password dialog: a four-step validation chain that runs before
 * any request is sent, and the dialog's state (three fields, an error line and
 * a loading flag) as the submit, reply and close handlers change it.
 */
module ChangePasswordModal {
  import opened Wrappers
  import opened Constants
  import opened Middleware

  const AllFieldsRequired := "All fields are required"
  const TooShort := "New password must be at least 6 characters long"
  const Mismatch := "New passwords do not match"
  const NotDifferent := "New password must be different from old password"
  const ChangeFailed := "Failed to change password"
  const Unexpected := "An unexpected error occurred. Please try again."

  /** The shortest new password the dialog and the route accept. */
  const MinPasswordLength := 6

  /** The form checks, in order; None when every check passes. */
  function Validate(oldPassword: string, newPassword: string, confirmPassword: string): (r: Option<string>)
    ensures r.None? <==> Acceptable(oldPassword, newPassword, confirmPassword)
  {
    if oldPassword == "" || newPassword == "" || confirmPassword == "" then Some(AllFieldsRequired)
    else if |newPassword| < MinPasswordLength then Some(TooShort)
    else if newPassword != confirmPassword then Some(Mismatch)
    else if oldPassword == newPassword then Some(NotDifferent)
    else None
  }

  /** What a submittable form is, stated independently of the order of the checks. */
  predicate Acceptable(oldPassword: string, newPassword: string, confirmPassword: string)
  {
    && oldPassword != "" && confirmPassword != ""
    && |newPassword| >= MinPasswordLength
    && newPassword == confirmPassword
    && oldPassword != newPassword
  }

  /** The first failing check names the error: emptiness, then length, then match, then difference. */
  lemma ValidationOrder(oldPassword: string, newPassword: string, confirmPassword: string)
    ensures oldPassword == "" || newPassword == "" || confirmPassword == "" ==>
      Validate(oldPassword, newPassword, confirmPassword) == Some(AllFieldsRequired)
    ensures oldPassword != "" && newPassword != "" && confirmPassword != "" && |newPassword| < MinPasswordLength ==>
      Validate(oldPassword, newPassword, confirmPassword) == Some(TooShort)
    ensures oldPassword != "" && confirmPassword != "" && |newPassword| >= MinPasswordLength
            && newPassword != confirmPassword ==>
      Validate(oldPassword, newPassword, confirmPassword) == Some(Mismatch)
    ensures oldPassword != "" && |newPassword| >= MinPasswordLength && newPassword == confirmPassword
            && oldPassword == newPassword ==>
      Validate(oldPassword, newPassword, confirmPassword) == Some(NotDifferent)
  {
  }

  /** How the request ended: an HTTP answer (ok flag and `data.error`), or a thrown error. */
  datatype Reply = Answered(ok: bool, error: Option<string>) | Failed

  /** What the dialog does after a reply: stay open, or close and log the user out. */
  datatype After = StayOpen | CloseAndLogOut

  class Modal {
    var oldPassword: string
    var newPassword: string
    var confirmPassword: string
    var error: string
    var isLoading: bool

    constructor ()
      ensures oldPassword == "" && newPassword == "" && confirmPassword == ""
      ensures error == "" && !isLoading
    {
      oldPassword, newPassword, confirmPassword := "", "", "";
      error, isLoading := "", false;
    }

    /** `handleSubmit` up to the request: the body sent, or None when a check failed. */
    method HandleSubmit() returns (request: Option<(string, string)>)
      modifies this
      ensures oldPassword == old(oldPassword) && newPassword == old(newPassword)
      ensures confirmPassword == old(confirmPassword)
      ensures request.Some? <==> Acceptable(oldPassword, newPassword, confirmPassword)
      ensures request.Some? ==> request.value == (oldPassword, newPassword) && error == "" && isLoading
      ensures request.None? ==> Some(error) == Validate(oldPassword, newPassword, confirmPassword)
      ensures request.None? ==> isLoading == old(isLoading)
    {
      error := "";
      var failure := Validate(oldPassword, newPassword, confirmPassword);
      if failure.Some? {
        error := failure.value;
        return None;
      }
      isLoading := true;
      return Some((oldPassword, newPassword));
    }

    /** `handleSubmit` after the request settles. */
    method HandleReply(reply: Reply) returns (after: After)
      modifies this
      ensures !isLoading
      ensures after == CloseAndLogOut <==> reply.Answered? && reply.ok
      ensures after == CloseAndLogOut ==>
        oldPassword == "" && newPassword == "" && confirmPassword == "" && error == ""
      ensures after == StayOpen ==> oldPassword == old(oldPassword) && newPassword == old(newPassword)
                                    && confirmPassword == old(confirmPassword)
      ensures reply.Answered? && !reply.ok ==>
        error == (if Truthy(reply.error) then reply.error.value else ChangeFailed)
      ensures reply.Failed? ==> error == Unexpected
    {
      match reply
      case Failed =>
        error := Unexpected;
        isLoading := false;
        return StayOpen;
      case Answered(ok, message) =>
        if !ok {
          error := if Truthy(message) then message.value else ChangeFailed;
          isLoading := false;
          return StayOpen;
        }
        oldPassword, newPassword, confirmPassword := "", "", "";
        error := "";
        isLoading := false;
        return CloseAndLogOut;
    }

    /** `handleClose`: ignored while loading; otherwise clears the fields and the error and closes. */
    method HandleClose() returns (closed: bool)
      modifies this
      ensures closed <==> !old(isLoading)
      ensures !closed ==> oldPassword == old(oldPassword) && newPassword == old(newPassword)
                          && confirmPassword == old(confirmPassword) && error == old(error)
      ensures closed ==> oldPassword == "" && newPassword == "" && confirmPassword == "" && error == ""
      ensures isLoading == old(isLoading)
    {
      if isLoading {
        return false;
      }
      oldPassword, newPassword, confirmPassword := "", "", "";
      error := "";
      return true;
    }
  }

  /**
   * After a successful change the dialog clears the user's two cookies and
   * navigates to the login page, which the gate then serves (absent a
   * sysadmin session).
   */
  lemma LogOutLandsOnLogin(c: AuthCookies)
    requires !HasSysadminAuth(c)
    ensures Gate(LoginRoute, c.(authToken := None, userId := None)) == Allow
  {
    TargetsOutsidePrefixes();
  }
}
