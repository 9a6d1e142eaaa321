/** The stored records of the users and sysadmins collections, and their password-free views. */
module Schemas {
  import opened Wrappers
  import opened Bcrypt

  /** A point in time (`new Date()`), supplied by the caller. */
  type Timestamp = nat

  /** A document of the users collection. */
  datatype User = User(
    id: Option<string>,
    username: string,
    email: Option<string>,
    password: Digest,
    createdAt: Timestamp,
    updatedAt: Timestamp)

  /** A user with the password field removed. */
  datatype PublicUser = PublicUser(
    id: Option<string>,
    username: string,
    email: Option<string>,
    createdAt: Timestamp,
    updatedAt: Timestamp)

  /** A document of the sysadmins collection. */
  datatype Sysadmin = Sysadmin(
    id: Option<string>,
    username: string,
    password: Digest,
    createdAt: Timestamp,
    updatedAt: Timestamp)

  /** A sysadmin with the password field removed. */
  datatype PublicSysadmin = PublicSysadmin(
    id: Option<string>,
    username: string,
    createdAt: Timestamp,
    updatedAt: Timestamp)

  /** `const { password: _, ...rest } = user` */
  function UserWithoutPassword(u: User): PublicUser
  {
    PublicUser(u.id, u.username, u.email, u.createdAt, u.updatedAt)
  }

  /** `const { password: _, ...rest } = admin` */
  function SysadminWithoutPassword(a: Sysadmin): PublicSysadmin
  {
    PublicSysadmin(a.id, a.username, a.createdAt, a.updatedAt)
  }

  /** Stripping forgets the password and nothing else. */
  lemma UserWithoutPasswordForgetsOnlyPassword(u: User, v: User)
    ensures UserWithoutPassword(u) == UserWithoutPassword(v) <==> u.(password := v.password) == v
  {
  }

  /** Stripping forgets the password and nothing else. */
  lemma SysadminWithoutPasswordForgetsOnlyPassword(a: Sysadmin, b: Sysadmin)
    ensures SysadminWithoutPassword(a) == SysadminWithoutPassword(b) <==> a.(password := b.password) == b
  {
  }

  // The query filters used against the two collections.

  function UserIdIs(id: string): User -> bool { (u: User) => u.id == Some(id) }
  function UsernameIs(name: string): User -> bool { (u: User) => u.username == name }
  function EmailIs(email: string): User -> bool { (u: User) => u.email == Some(email) }
  function SysadminIdIs(id: string): Sysadmin -> bool { (a: Sysadmin) => a.id == Some(id) }
  function SysadminUsernameIs(name: string): Sysadmin -> bool { (a: Sysadmin) => a.username == name }
}
