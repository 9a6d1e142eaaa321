/** The fixed names and values shared by the gate, the guards and the login route. */
module Constants {

  // Cookie names.
  const UserTokenCookie := "auth_token"
  const UserIdCookie := "user_id"
  const SysadminTokenCookie := "sysadmin_token"
  const SysadminIdCookie := "sysadmin_id"

  // The single token value each role accepts.
  const UserValidToken := "valid_token"
  const SysadminValidToken := "sysadmin_valid"

  // Page routes, and the root of the API routes.
  const HomeRoute := "/"
  const LoginRoute := "/login"
  const SysadminRoute := "/sysadmin"
  const UnauthorizedRoute := "/unauthorized"
  const ApiRoute := "/api"

  /** Lifetime, in seconds, of the user session cookies. */
  const UserCookieMaxAge := 86400

  /** The message every failed credential check reports, whatever failed. */
  const InvalidCredentials := "Invalid username or password"

  /** The message a credential check reports when the database fails. */
  const VerifyFailed := "Failed to verify credentials"
}
