# Access control and account handling of master-app, in Dafny

This project models the authentication core of a Next.js application.

- **Access gate.** Every page request passes through the `middleware` gate. The gate classifies the path and reads four session cookies: `auth_token`, `user_id`, `sysadmin_token` and `sysadmin_id`. An ordered rule chain then either lets the request through or redirects it to `/login`, `/`, `/sysadmin` or `/unauthorized`.
- **Credential guards.** Behind the gate, the API routes use server-side guards. `getCurrentUser` and `isAuthenticated` cover users; `getCurrentSysadmin` and `requireSysadmin` cover sysadmins. These guards compare the tokens against their literal values. The browser has a separate `isAuthenticated` predicate over `document.cookie`.
- **Accounts.** The user service stores the users collection with unique usernames and emails and hashed passwords. It also handles credential checks, password and profile updates, deletion and the listing. Three routes use it: login, registration/look-up, and change-password. The change-password dialog validates its form before it sends anything.
- **Sysadmin service.** It checks its configuration and the sysadmin credentials.

Files, one module each:

| file | module | models |
|---|---|---|
| `wrappers.dfy` | `Wrappers` | `Option`, `Outcome` (a value or a thrown `Error(message)`), JavaScript truthiness of an optional string |
| `constants.dfy` | `Constants` | cookie names, token values, routes, cookie lifetime, the shared credential message |
| `bcrypt.dfy` | `Bcrypt` | `bcrypt.hash` / `bcrypt.compare` as `Hash` / `Verify` |
| `sequences.dfy` | `Sequences` | first match in a sequence |
| `strings.dfy` | `Strings` | `startsWith`, `includes`, `trim`, `split` |
| `schemas.dfy` | `Schemas` | the user and sysadmin records and their password-free views |
| `store.dfy` | `Store` | a collection and the driver's `findOne` |
| `middleware.dfy` | `Middleware` | the gate |
| `auth_utils.dfy` | `AuthUtils` | the server-side user guards |
| `sysadmin_service.dfy` | `SysadminServices` | the sysadmin service |
| `sysadmin_auth.dfy` | `SysadminAuth` | the server-side sysadmin guards |
| `client_auth.dfy` | `ClientAuth` | the browser's cookie-string predicate |
| `user_service.dfy` | `UserServices` | the user service, as a class over the users collection |
| `change_password_modal.dfy` | `ChangePasswordModal` | the dialog's validation chain and its state |
| `login_route.dfy` | `LoginRoute` | `POST /api/auth/login` |
| `users_route.dfy` | `UsersRoute` | `POST` and `GET /api/users` |
| `change_password_route.dfy` | `ChangePasswordRoute` | `POST /api/auth/change-password` |

Modelling choices:

- **The database.** A collection is the sequence of its documents in natural order, plus a `fault`. When `fault` is present the database is unreachable, and every driver call throws an error carrying that message. A sequence is used rather than a map from id to record because `findOne` returns the *first* match, which a map cannot express.
- **Collection invariant.** The users collection keeps this invariant: every document has a non-empty id, ids are distinct, and non-empty usernames and non-empty emails are distinct. The registration and update checks preserve it. The unique indexes described next to the schema back it.
- **Errors.** A thrown error is `Thrown(message)`. Each `catch` block becomes the branch that handles it.
- **Inputs from outside.** Times (`new Date()`) and the id the database gives a new document are arguments.
- **Gate session test.** The gate's session tests `hasUserAuth` and `hasSysadminAuth` check only that both values of a cookie pair are non-empty. They do not compare the token against `valid_token` or `sysadmin_valid`. Lemma `Middleware.AnyTokenValueCounts` states that the token's value is irrelevant to the gate. `AuthUtils.GateAdmitsForgedToken` shows a session the gate admits that the server guard rejects.
- **Paths in the table.** Paths in the table below are relative to the repository root.

## Model

| member | source | states |
|---|---|---|
| Middleware.GetAuthCookies | middleware.ts:34-41 | the four session cookies read from the jar, absent when unset; `OnlySessionCookiesMatter` states that no other cookie reaches the gate |
| Middleware.GetRouteChecks | middleware.ts:43-51 | the five path tests: exact `/login`, `/unauthorized` and `/`, raw prefixes `/api` and `/sysadmin`; `RouteChecksExclusive` and `PrefixesAreRaw` state their behaviour |
| Middleware.HasUserAuth | middleware.ts:58-60 | a user session is a non-empty token beside a non-empty id; `PartialPairIsAbsent` and `AnyTokenValueCounts` state its behaviour |
| Middleware.HasSysadminAuth | middleware.ts:62-64 | the same test on the sysadmin pair; `PartialPairIsAbsent` and `AnyTokenValueCounts` state its behaviour |
| Middleware.Gate | middleware.ts:76-115 | every request gets exactly one decision, and every redirect goes to one of `/login`, `/`, `/sysadmin`, `/unauthorized` |
| Middleware.Handle | middleware.ts:76-79 | the whole middleware, cookies read from the jar, only ever redirects to those four paths |
| Middleware.GateMatchesTable | middleware.ts:76-115 | the rule chain equals an independent access table indexed by the path's one category and the two session flags |
| Middleware.RouteChecksExclusive | middleware.ts:43-51 | at most one of the five route checks holds for any path |
| Middleware.ApiAndUnauthorizedAlwaysAllowed | middleware.ts:81-83 | any path starting with `/api`, and `/unauthorized`, is let through whatever the cookies |
| Middleware.SysadminAreaBlocksOnlyUsers | middleware.ts:85-93 | a `/sysadmin…` path redirects to `/unauthorized` exactly when a user session is present (even beside a sysadmin session), and is let through otherwise |
| Middleware.SysadminHomeFunnel | middleware.ts:95-97 | `/` with a sysadmin session redirects to `/sysadmin`, whatever user session is present |
| Middleware.SysadminBarredFromUserPages | middleware.ts:99-104 | a sysadmin session on any other page outside `/api…`, `/sysadmin…` and `/unauthorized`, `/login` included, redirects to `/unauthorized`, ahead of the user rules |
| Middleware.NoSessionGoesToLogin | middleware.ts:106-108 | with neither session, every such page except `/login` redirects to `/login`, and `/login` is let through |
| Middleware.UserSessionPages | middleware.ts:106-114 | a user session without a sysadmin session is sent from `/login` to `/` and let through on every other page |
| Middleware.PartialPairIsAbsent | middleware.ts:58-64 | a pair with a missing or empty token or id counts as no session |
| Middleware.AnyTokenValueCounts | middleware.ts:58-64 | changing a non-empty token to any other non-empty value never changes the decision |
| Middleware.PrefixesAreRaw | middleware.ts:46-47 | prefix matching is raw: `/apiary` is an API path and `/sysadminX` is in the sysadmin area |
| Middleware.OnlySessionCookiesMatter | middleware.ts:34-41 | two jars that agree on the four session cookies get the same decision |
| Middleware.RedirectSettles | middleware.ts:81-114 | following a redirect with the same cookies is let through at `/login`, `/` and `/unauthorized`; at `/sysadmin` it is let through unless a user session is present, and then one more hop reaches `/unauthorized` |
| Middleware.AtMostTwoHops | middleware.ts:76-115 | from any path a browser reaches a served page after at most two redirects: the gate has no redirect loop |
| AuthUtils.IsAuthenticated | lib/api/auth-utils.ts:44-48 | the token is exactly `valid_token` and the id is non-empty; `CurrentUserImpliesGateSession` and `GateAdmitsForgedToken` relate it to the gate |
| AuthUtils.GetCurrentUser | lib/api/auth-utils.ts:9-39 | null exactly when the token is not `valid_token`, the id is missing or empty, the lookup fails, or no user has the id; otherwise the user with that id, password removed |
| AuthUtils.NoLookupWithoutValidToken | lib/api/auth-utils.ts:12-16 | without the valid token the result is null whatever the store holds |
| AuthUtils.LookupFailureIsNull | lib/api/auth-utils.ts:35-38 | a failing database gives null, never an error |
| AuthUtils.CurrentUserImpliesGateSession | lib/api/auth-utils.ts:14-23 | a current user implies `isAuthenticated` (valid token and non-empty id), which implies the gate's user session |
| AuthUtils.GateAdmitsForgedToken | middleware.ts:58-60 | the converse fails: a token `forged` passes the gate but not `isAuthenticated` |
| SysadminServices.NewSysadminService | lib/db/services/sysadmin.service.ts:10-19 | the constructor throws `sysadmin service configuration error` exactly when the database name or the collection name is missing or empty |
| SysadminServices.FindById | lib/db/services/base.service.ts:66-74 | an admin found by id has that id and is stored; null exactly when no admin has the id; a failing database throws |
| SysadminServices.VerifyCredentials | lib/db/services/sysadmin.service.ts:31-54 | the first admin with the username, password removed, when the password verifies against its hash; otherwise `Invalid username or password`, or `Failed to verify credentials` when the database fails |
| SysadminServices.UnknownAndWrongPasswordLookAlike | lib/db/services/sysadmin.service.ts:36-46 | an unknown username and a wrong password give the same answer |
| SysadminServices.AcceptsExactlyStoredPassword | lib/db/services/sysadmin.service.ts:42-49 | against the hash of `stored`, exactly the password `stored` succeeds |
| SysadminAuth.GetCurrentSysadmin | lib/api/sysadmin-auth.ts:13-34 | null exactly when the token is not `sysadmin_valid`, the id is missing or empty, the lookup fails, or no admin has the id; otherwise that admin, password removed |
| SysadminAuth.RequireSysadmin | lib/api/sysadmin-auth.ts:40-53 | a 401 with `Unauthorized – sysadmin access required` exactly when there is no current sysadmin, and otherwise the current sysadmin |
| SysadminAuth.CurrentSysadminImpliesGateSession | lib/api/sysadmin-auth.ts:17-22 | a current sysadmin implies the gate's sysadmin session |
| SysadminAuth.LookupFailureIsNull | lib/api/sysadmin-auth.ts:30-33 | a failing database gives null and a 401, never an error |
| ClientAuth.IsAuthenticated | lib/api/auth.ts:102-111 | the browser predicate; `NoWindowIsFalse`, `DecidedByFirstAuthTokenPiece`, `NoAuthTokenPieceIsFalse` and `ContainmentNotEquality` state its behaviour |
| ClientAuth.NoWindowIsFalse | lib/api/auth.ts:103 | without a window the answer is false |
| ClientAuth.DecidedByFirstAuthTokenPiece | lib/api/auth.ts:105-110 | the answer is decided by the first `;`-piece that starts with `auth_token=` once trimmed, and is whether that piece contains `valid_token` |
| ClientAuth.NoAuthTokenPieceIsFalse | lib/api/auth.ts:110 | no such piece means false |
| ClientAuth.ContainmentNotEquality | lib/api/auth.ts:110 | the test is containment: `auth_token=xvalid_token` is accepted |
| Strings.StartsWith | middleware.ts:46-47 | `startsWith`: the text begins with the prefix; `Middleware.PrefixesAreRaw` and `ClientAuth.DecidedByFirstAuthTokenPiece` use it |
| Strings.Trim | lib/api/auth.ts:107 | `trim`; `TrimIsInnerSlice` states its behaviour |
| Strings.Includes | lib/api/auth.ts:110 | `includes` holds exactly when the text occurs at some position |
| Strings.LeadingWhitespace | lib/api/auth.ts:107 | the length of the longest whitespace prefix |
| Strings.TrailingWhitespace | lib/api/auth.ts:107 | the length of the longest whitespace suffix |
| Strings.TrimIsInnerSlice | lib/api/auth.ts:107 | `trim` removes exactly the leading and trailing whitespace: the rest is a slice neither starting nor ending in whitespace |
| Strings.Split | lib/api/auth.ts:105 | at least one piece, none containing the separator |
| Strings.JoinSplit | lib/api/auth.ts:105 | joining the pieces with the separator gives the string back |
| Strings.SplitJoin | lib/api/auth.ts:105 | splitting a join of separator-free pieces gives the pieces back |
| Strings.SplitWithoutSeparator | lib/api/auth.ts:105 | a string without the separator is one piece |
| ChangePasswordModal.Validate | app/_components/navbar/ChangePasswordModal.tsx:28-46 | the form passes exactly when it is acceptable: all fields non-empty, new password at least 6 long, confirmation equal, new different from old |
| ChangePasswordModal.ValidationOrder | app/_components/navbar/ChangePasswordModal.tsx:28-46 | the first failing check names the error: all-fields, then length, then mismatch, then must-be-different |
| ChangePasswordModal.Modal.HandleSubmit | app/_components/navbar/ChangePasswordModal.tsx:23-48 | a request carrying old and new password is made exactly when all four checks pass, and it clears the error and sets loading; otherwise the first failure is shown |
| ChangePasswordModal.Modal.HandleReply | app/_components/navbar/ChangePasswordModal.tsx:62-89 | loading ends; a successful answer clears the form and closes and logs out; a failed answer shows its error or `Failed to change password`; a thrown error shows the unexpected-error message |
| ChangePasswordModal.Modal.HandleClose | app/_components/navbar/ChangePasswordModal.tsx:92-100 | ignored while loading; otherwise clears the three fields and the error and closes |
| ChangePasswordModal.LogOutLandsOnLogin | app/_components/navbar/ChangePasswordModal.tsx:82-84 | after the user cookies are cleared, the gate serves `/login` (absent a sysadmin session) |
| LoginRoute.Post | app/api/auth/login/route.ts:5-59 | unreadable body 500; a missing username or password 400; failed verification 401 with the service's error; success 200 with the user, setting exactly the session cookies, after which the server guard recognises that same user |
| LoginRoute.ResponseCookies.Set | app/api/auth/login/route.ts:34-49 | setting a cookie replaces any of the same name and nothing else |
| LoginRoute.SessionJarShape | app/api/auth/login/route.ts:34-49 | success always sets `auth_token=valid_token` for path `/`, one day, script-readable, same-site strict; `user_id` only when the user has an id; never a sysadmin cookie |
| LoginRoute.SessionRecognised | lib/api/auth-utils.ts:12-34 | those cookies pass the gate as a user, not as a sysadmin, and `getCurrentUser` returns the user who logged in |
| UsersRoute.Post | app/api/users/route.ts:5-43 | unreadable body 500; a missing username or password 400; a taken username, then a taken email, 409 with the service's message; any other service error 500; otherwise 201 with the created user, password removed |
| UsersRoute.CreateError | app/api/users/route.ts:27-41 | an error message containing `already exists` gives 409 with that message, any other 500 `Failed to create user` |
| UsersRoute.UsernameConflictIs409 | app/api/users/route.ts:31-36 | the service's `Username already exists` is answered 409 |
| UsersRoute.EmailConflictIs409 | app/api/users/route.ts:31-36 | the service's `Email already exists` is answered 409 |
| UsersRoute.Get | app/api/users/route.ts:46-79 | no name 400; a failing database 500; an unknown name 404; otherwise 200 with the one holder of the name, password removed |
| ChangePasswordRoute.Post | app/api/auth/change-password/route.ts:7-86 | no current user with an id 401 before the body is read; unreadable body 500; missing passwords 400; a short new password 400; an old password not verifying against the stored hash 401; a new password verifying against it 400; otherwise 200 and exactly that user's hash replaced; with the database available for the whole request and the update applied, 404 and the two other 500 answers do not occur |
| ChangePasswordRoute.ChangeStoredPassword | app/api/auth/change-password/route.ts:36-78 | with the database failing, 500 `Failed to change password`; with no document holding the id, 404; otherwise, for the holder of the id, the same hash checks and update as the route; nothing changes unless the answer is 200 |
| ChangePasswordRoute.NewPasswordReplacesOld | lib/db/services/user.service.ts:71-113 | after the change the new password logs the user in and the old one no longer does |
| ChangePasswordRoute.DialogFormPassesRoute | app/api/auth/change-password/route.ts:22-64 | a form the dialog accepts passes the route's field and length checks and, for a user whose hash is of the old password, both hash checks |
| UserServices.UserService.FindById | lib/db/services/base.service.ts:66-74 | throws exactly when the database fails; finds something exactly when a document has the id, and then the one document with it |
| UserServices.UserService.FindByUsername | lib/db/services/user.service.ts:20-22 | throws exactly when the database fails; finds something exactly when the name is taken, and then the one holder of a non-empty name |
| UserServices.UserService.FindByEmail | lib/db/services/user.service.ts:27-29 | throws exactly when the database fails; finds something exactly when the email is taken, and then the one holder of a non-empty email |
| UserServices.UserService.VerifyCredentials | lib/db/services/user.service.ts:71-97 | for a non-empty name, succeeds exactly when the database works and the holder's hash verifies the password, returning the holder without password; `Invalid username or password` for both unknown name and wrong password; `Failed to verify credentials` on a database failure |
| UserServices.UserService.GetUserById | lib/db/services/user.service.ts:127-131 | the document with the id, password removed, or null when there is none |
| UserServices.UserService.CreateUser | lib/db/services/user.service.ts:34-66 | a taken username fails first; a taken email fails only when an email is given; otherwise exactly one document is appended with the hash of the password; the collection invariant holds after |
| UserServices.UserService.UpdatePassword | lib/db/services/user.service.ts:102-114 | true exactly when the database works and a document has the id; then only that document changes, to the hash of the new password and the new update time |
| UserServices.UserService.UpdateUser | lib/db/services/user.service.ts:136-159 | refuses exactly a non-empty username, then an email, held by another document, so the user's own values are accepted; otherwise applies the given fields to that document only, or answers null when no document has the id |
| UserServices.UserService.UpdateProfileById | lib/db/services/base.service.ts:123-161 | applies the fields and the update time to the document with the id and nothing else, keeping the invariant |
| UserServices.UserService.DeleteUser | lib/db/services/user.service.ts:164-166 | true exactly when a document had the id; then exactly that document is removed and all others stay |
| UserServices.UserService.GetAllUsers | lib/db/services/user.service.ts:119-122 | every document, password removed, newest first: sorted by creation time descending and a permutation of the collection |
| UserServices.SortNewestFirst | lib/db/services/user.service.ts:120 | a permutation of the documents ordered by creation time, newest first |
| UserServices.InsertNewest | lib/db/services/user.service.ts:120 | inserting adds exactly the one document |
| UserServices.InsertNewestSorted | lib/db/services/user.service.ts:120 | inserting into a newest-first sequence keeps it newest-first |
| UserServices.StripAllPermutation | lib/db/services/user.service.ts:121 | removing passwords maps permutations to permutations |
| UserServices.UsernameCheck | lib/db/services/user.service.ts:141-146 | under the invariant, the first-match check refuses exactly a name another document holds |
| UserServices.EmailCheck | lib/db/services/user.service.ts:149-154 | under the invariant, the first-match check refuses exactly an email another document holds |
| UserServices.ReplaceKeepsInvariant | lib/db/services/user.service.ts:136-159 | replacing a document keeps the invariant when its id stays and its new name and email are free |
| UserServices.RemoveKeepsInvariant | lib/db/services/base.service.ts:166-188 | removing a document keeps the invariant |
| UserServices.RemoveDropsOnlyThatId | lib/db/services/base.service.ts:166-188 | with distinct ids, removing the holder of an id removes exactly the documents with that id |
| UserServices.StrippedListing | lib/db/services/user.service.ts:119-122 | mapping the newest-first permutation to password-free views gives a newest-first permutation of the stripped collection |
| UserServices.FindByDistinctId | lib/db/services/base.service.ts:66-74 | with distinct ids, the document holding an id is the one found |
| Schemas.UserWithoutPassword | lib/db/services/user.service.ts:171-174 | `getUserWithoutPassword`; `UserWithoutPasswordForgetsOnlyPassword` states its behaviour |
| Schemas.SysadminWithoutPassword | lib/db/services/sysadmin.service.ts:48 | the sysadmin view without password; `SysadminWithoutPasswordForgetsOnlyPassword` states its behaviour |
| Schemas.UserWithoutPasswordForgetsOnlyPassword | lib/db/services/user.service.ts:171-174 | removing the password forgets it and nothing else |
| Schemas.SysadminWithoutPasswordForgetsOnlyPassword | lib/db/services/sysadmin.service.ts:48 | removing the password forgets it and nothing else |
| Store.FindOne | lib/db/services/base.service.ts:35-44 | throws the database's error exactly when it fails; otherwise the first match, or null exactly when nothing matches |
| Sequences.Find | lib/db/services/base.service.ts:38 | the first element satisfying the filter, or none exactly when none does |
| Bcrypt.VerifyOnlyOwnHash | lib/db/services/user.service.ts:84 | a password verifies against the hash of exactly itself |

## Left out

- The MongoDB driver, the connection module and ObjectId are left out; a collection is a sequence of records with an optional fault. `findById` on a malformed id is "not found".
- UserServices.UserService.UpdateUser: a malformed id makes the source's `updateById` rethrow the ObjectId error; the model treats every id as well-formed, so such an id answers null.
- `updateOne` sends `{...update, $set: {updatedAt}}`, putting the plain fields `password`, `username` and `email` beside `$set`. Whether the driver accepts such a document is a property of the driver, which is not part of this model. The model applies the fields as if they were in `$set`.
- bcrypt: `Hash` is deterministic and `Verify` accepts exactly the hashed password. The salt, the cost factor and bcrypt's 72-byte truncation are not modelled. Real bcrypt truncates passwords to 72 bytes, so two passwords that agree on those bytes verify against each other's hashes. The following results rely on `Verify` being injective and would not hold as stated for such passwords: `Bcrypt.VerifyOnlyOwnHash`, `SysadminServices.AcceptsExactlyStoredPassword`, `ChangePasswordRoute.NewPasswordReplacesOld`, and the `!Verify(newPassword, Hash(oldPassword))` half of `ChangePasswordRoute.DialogFormPassesRoute`.
- UserServices.UserService.GetAllUsers: the database's order among documents with equal `createdAt` is unspecified; the model fixes one (stable insertion order).
- The race between a uniqueness check and the insert or update, and any other interleaving of concurrent requests: the routes run one at a time.
- ChangePasswordRoute.Post: its proof that 404, the failed-lookup 500 and the failed-update 500 do not occur rests on two assumptions. First, the database's availability is fixed for the whole request, so a failure after `getCurrentUser` succeeds is not modelled. In the source such a failure makes `findById` throw, giving 500 (app/api/auth/change-password/route.ts:37, 79-84), or makes `updatePassword` return false, giving 500 (app/api/auth/change-password/route.ts:67-74). Second, the update document `{password, $set}` is taken as applied, although the driver may refuse it (lib/db/services/base.service.ts:129-135). A concurrent deletion of the user between the two look-ups would also reach these answers.
- `async`/`await`, logging and `new Date()`: asynchronous results are plain values, logs are dropped, and times are arguments.
- String length is counted in Dafny characters (Unicode scalar values), while JavaScript counts UTF-16 code units. The two differ for passwords outside the Basic Multilingual Plane.
- `trim` uses the ECMAScript whitespace set as listed in `Strings.IsWhitespace`.
- Request bodies are records of optional strings. A JSON value that is not a string (a number, an object) is not modelled, and a body that is not JSON is `None`.
- NextRequest/NextResponse, URL construction and the `config.matcher` pattern of the middleware: the framework applies the matcher before the gate runs.
- The UI is left out: the dialog's rendering, visibility toggles, `alert`, router navigation, and the other pages and components. The submit button is disabled while loading, but that is rendering, so `HandleSubmit` has no guard of its own.
- The rest of `lib/api/auth.ts` is left out: the fetch-based `login`/`register`, and the cookie-clearing `logout`. Cookie clearing after a password change appears only as `ChangePasswordModal.LogOutLandsOnLogin`.
- The module-level singletons (`userService`, `sysadminService`) are left out. Constructing the sysadmin service at module load makes its configuration error surface on import; the model has the constructor as a function instead.
- The user service's constructor reads `USERS_DB_NAME` and `USERS_COLLECTION_NAME` with `|| ''` and performs no check, so it is left out.
- `createMany`, `count` and `exists` of the base service are not used by the core and are left out.
- The clipboard and TOON services and the setup scripts are left out.
- Middleware.Hops: counting redirects takes a fuel bound, because termination of following redirects is what is being proved. `AtMostTwoHops` holds for every fuel.
