/**
 * `/api/users`: `POST` registers a user and maps the service's errors to
 * 409 (a taken username or email) or 500; `GET` looks a user up by name.
 * Neither answer ever carries a password.
 */
module UsersRoute {
  import opened Wrappers
  import opened Bcrypt
  import opened Strings
  import opened Schemas
  import opened UserServices

  const CredentialsRequired := "Username and password are required"
  const CreateFailed := "Failed to create user"
  const UsernameRequired := "Username is required"
  const NotFound := "User not found"
  const FetchFailed := "Failed to fetch user"
  /** The text that marks a service error as a conflict. */
  const AlreadyExists := "already exists"

  /** The JSON body of a registration; a field the client left out is None. */
  datatype Registration = Registration(username: Option<string>, email: Option<string>, password: Option<string>)

  datatype UserReply = UserReply(status: int, user: Option<PublicUser>, error: Option<string>)

  /** The status and body for an error thrown while creating a user. */
  function CreateError(message: string): (r: UserReply)
    ensures r.user.None?
    ensures r.status == 409 <==> Includes(message, AlreadyExists)
    ensures r.status == 409 ==> r.error == Some(message)
    ensures r.status != 409 ==> r == UserReply(500, None, Some(CreateFailed))
  {
    if Includes(message, AlreadyExists) then UserReply(409, None, Some(message))
    else UserReply(500, None, Some(CreateFailed))
  }

  /** The username conflict message is answered with 409 and passed through. */
  lemma UsernameConflictIs409()
    ensures CreateError(UsernameExists) == UserReply(409, None, Some(UsernameExists))
  {
    var prefix := "Username ";
    assert UsernameExists == prefix + AlreadyExists;
    IncludesSuffix(prefix, AlreadyExists);
  }

  /** The email conflict message is answered with 409 and passed through. */
  lemma EmailConflictIs409()
    ensures CreateError(EmailExists) == UserReply(409, None, Some(EmailExists))
  {
    var prefix := "Email ";
    assert EmailExists == prefix + AlreadyExists;
    IncludesSuffix(prefix, AlreadyExists);
  }

  /**
   * `POST`: `body` is None when the request body is not JSON; `now` and
   * `newId` are the creation time and the id the database assigns.
   */
  method Post(svc: UserService, body: Option<Registration>, now: Timestamp, newId: string) returns (resp: UserReply)
    requires svc.Valid()
    requires newId != "" && forall k :: 0 <= k < |svc.docs| ==> svc.docs[k].id != Some(newId)
    modifies svc
    ensures svc.Valid()
    ensures resp.status != 201 ==> svc.docs == old(svc.docs) && resp.user.None?
    ensures body.None? ==> resp == UserReply(500, None, Some(CreateFailed))
    ensures body.Some? && !(Truthy(body.value.username) && Truthy(body.value.password)) ==>
      resp == UserReply(400, None, Some(CredentialsRequired))
    ensures body.Some? && Truthy(body.value.username) && Truthy(body.value.password) ==>
      var username, email, password := body.value.username.value, body.value.email, body.value.password.value;
      && (svc.fault.Some? ==> resp == CreateError(svc.fault.value))
      && (svc.fault.None? && UsernameTaken(old(svc.docs), username) ==>
            resp == UserReply(409, None, Some(UsernameExists)))
      && (svc.fault.None? && !UsernameTaken(old(svc.docs), username)
          && Truthy(email) && EmailTaken(old(svc.docs), email.value) ==>
            resp == UserReply(409, None, Some(EmailExists)))
      && (svc.fault.None? && !UsernameTaken(old(svc.docs), username)
          && !(Truthy(email) && EmailTaken(old(svc.docs), email.value)) ==>
            && svc.docs == old(svc.docs) + [User(Some(newId), username, email, Hash(password), now, now)]
            && resp == UserReply(201, Some(PublicUser(Some(newId), username, email, now, now)), None))
  {
    if body.None? {
      return UserReply(500, None, Some(CreateFailed));
    }
    var username, email, password := body.value.username, body.value.email, body.value.password;
    if !Truthy(username) || !Truthy(password) {
      return UserReply(400, None, Some(CredentialsRequired));
    }
    var created := svc.CreateUser(username.value, email, password.value, now, newId);
    match created {
      case Thrown(message) =>
        UsernameConflictIs409();
        EmailConflictIs409();
        resp := CreateError(message);
      case Ok(user) =>
        resp := UserReply(201, Some(UserWithoutPassword(user)), None);
    }
  }

  /** `GET ?username=`: the holder of the name without its password. */
  function Get(svc: UserService, username: Option<string>): (r: UserReply)
    reads svc
    ensures r.status == 200 <==> Truthy(username) && svc.fault.None? && UsernameTaken(svc.docs, username.value)
    ensures !Truthy(username) ==> r == UserReply(400, None, Some(UsernameRequired))
    ensures Truthy(username) && svc.fault.Some? ==> r == UserReply(500, None, Some(FetchFailed))
    ensures Truthy(username) && svc.fault.None? && !UsernameTaken(svc.docs, username.value) ==>
      r == UserReply(404, None, Some(NotFound))
    ensures r.status == 200 ==>
      exists k :: && 0 <= k < |svc.docs| && svc.docs[k].username == username.value
                  && r == UserReply(200, Some(UserWithoutPassword(svc.docs[k])), None)
    ensures r.status == 200 && svc.Valid() ==>
      forall k :: 0 <= k < |svc.docs| && svc.docs[k].username == username.value ==>
        r.user == Some(UserWithoutPassword(svc.docs[k]))
  {
    if !Truthy(username) then UserReply(400, None, Some(UsernameRequired))
    else
      match svc.FindByUsername(username.value)
      case Thrown(_) => UserReply(500, None, Some(FetchFailed))
      case Ok(None) => UserReply(404, None, Some(NotFound))
      case Ok(Some(user)) =>
        assert exists k :: 0 <= k < |svc.docs| && svc.docs[k] == user;
        UserReply(200, Some(UserWithoutPassword(user)), None)
  }
}
