/**
 * The user service over the users collection: look-ups, registration with
 * uniqueness checks, credential checks that never say which half was wrong,
 * password and profile updates, deletion, and the password-free listing.
 */
module UserServices {
  import opened Wrappers
  import opened Constants
  import opened Bcrypt
  import opened Schemas
  import opened Store
  import opened Sequences

  const UsernameExists := "Username already exists"
  const EmailExists := "Email already exists"

  /** The result of `verifyCredentials`: a user without password, or an error message. */
  datatype Verified = Verified(user: Option<PublicUser>, error: Option<string>)

  // ---------------------------------------------------------------------------
  // The table invariant. The unique indexes the collection is set up with
  // cover usernames and emails; the service's own checks keep the non-empty
  // ones distinct (an empty username or email passes the checks unexamined).

  ghost predicate IdsAssigned(docs: seq<User>)
  {
    forall k :: 0 <= k < |docs| ==> Truthy(docs[k].id)
  }

  ghost predicate IdsDistinct(docs: seq<User>)
  {
    forall j, k :: 0 <= j < k < |docs| ==> docs[j].id != docs[k].id
  }

  ghost predicate UsernamesDistinct(docs: seq<User>)
  {
    forall j, k :: 0 <= j < k < |docs| && docs[j].username != "" ==> docs[j].username != docs[k].username
  }

  ghost predicate EmailsDistinct(docs: seq<User>)
  {
    forall j, k :: 0 <= j < k < |docs| && Truthy(docs[j].email) ==> docs[j].email != docs[k].email
  }

  ghost predicate TableInvariant(docs: seq<User>)
  {
    IdsAssigned(docs) && IdsDistinct(docs) && UsernamesDistinct(docs) && EmailsDistinct(docs)
  }

  /** Some document has this username. */
  predicate UsernameTaken(docs: seq<User>, name: string)
  {
    exists k :: 0 <= k < |docs| && docs[k].username == name
  }

  /** Some document has this email. */
  predicate EmailTaken(docs: seq<User>, email: string)
  {
    exists k :: 0 <= k < |docs| && docs[k].email == Some(email)
  }

  /** Some document other than the one with id `id` has this username. */
  predicate UsernameOwnedByOther(docs: seq<User>, name: string, id: string)
  {
    exists k :: 0 <= k < |docs| && docs[k].username == name && docs[k].id != Some(id)
  }

  /** Some document other than the one with id `id` has this email. */
  predicate EmailOwnedByOther(docs: seq<User>, email: string, id: string)
  {
    exists k :: 0 <= k < |docs| && docs[k].email == Some(email) && docs[k].id != Some(id)
  }

  /** A profile update: given fields replace the stored ones, and the update time is set. */
  function ApplyProfile(u: User, username: Option<string>, email: Option<string>, now: Timestamp): User
  {
    u.(username := if username.Some? then username.value else u.username,
       email := if email.Some? then email else u.email,
       updatedAt := now)
  }

  // ---------------------------------------------------------------------------
  // Look-ups under the invariant.

  /** With distinct ids, the document holding an id is the one `findById` returns. */
  lemma FindByDistinctId(docs: seq<User>, k: nat)
    requires IdsDistinct(docs) && k < |docs| && docs[k].id.Some?
    ensures Find(docs, UserIdIs(docs[k].id.value)) == Some(docs[k])
    ensures FirstIndex(docs, UserIdIs(docs[k].id.value)) == Some(k)
  {
    var i := FirstIndex(docs, UserIdIs(docs[k].id.value));
    assert UserIdIs(docs[k].id.value)(docs[k]);
  }

  /** With distinct non-empty usernames, the holder of a username is the one `findByUsername` returns. */
  lemma FindByDistinctUsername(docs: seq<User>, k: nat)
    requires UsernamesDistinct(docs) && k < |docs| && docs[k].username != ""
    ensures Find(docs, UsernameIs(docs[k].username)) == Some(docs[k])
  {
    var i := FirstIndex(docs, UsernameIs(docs[k].username));
    assert UsernameIs(docs[k].username)(docs[k]);
  }

  /** With distinct non-empty emails, the holder of an email is the one `findByEmail` returns. */
  lemma FindByDistinctEmail(docs: seq<User>, k: nat)
    requires EmailsDistinct(docs) && k < |docs| && Truthy(docs[k].email)
    ensures Find(docs, EmailIs(docs[k].email.value)) == Some(docs[k])
  {
    var i := FirstIndex(docs, EmailIs(docs[k].email.value));
    assert EmailIs(docs[k].email.value)(docs[k]);
  }

  /** Under the invariant, `updateUser`'s username check refuses exactly a name another document holds. */
  lemma UsernameCheck(docs: seq<User>, name: string, id: string)
    requires TableInvariant(docs) && name != ""
    ensures var f := Find(docs, UsernameIs(name));
            f.Some? && f.value.id != Some(id) <==> UsernameOwnedByOther(docs, name, id)
  {
    if k :| 0 <= k < |docs| && docs[k].username == name && docs[k].id != Some(id) {
      FindByDistinctUsername(docs, k);
    }
  }

  /** Under the invariant, `updateUser`'s email check refuses exactly an email another document holds. */
  lemma EmailCheck(docs: seq<User>, email: string, id: string)
    requires TableInvariant(docs) && email != ""
    ensures var f := Find(docs, EmailIs(email));
            f.Some? && f.value.id != Some(id) <==> EmailOwnedByOther(docs, email, id)
  {
    if k :| 0 <= k < |docs| && docs[k].email == Some(email) && docs[k].id != Some(id) {
      FindByDistinctEmail(docs, k);
    }
  }

  /** Replacing one document keeps the invariant when its id stays and its new username and email are free. */
  lemma ReplaceKeepsInvariant(docs: seq<User>, k: nat, u: User)
    requires TableInvariant(docs) && k < |docs|
    requires u.id == docs[k].id
    requires u.username == docs[k].username || u.username == ""
             || forall j :: 0 <= j < |docs| && j != k ==> docs[j].username != u.username
    requires u.email == docs[k].email || !Truthy(u.email)
             || forall j :: 0 <= j < |docs| && j != k ==> docs[j].email != u.email
    ensures TableInvariant(docs[k := u])
  {
    var docs' := docs[k := u];
    forall i, j | 0 <= i < j < |docs'| && docs'[i].username != ""
      ensures docs'[i].username != docs'[j].username
    {
      if i != k && j != k {
        assert docs'[i] == docs[i] && docs'[j] == docs[j];
      }
    }
    forall i, j | 0 <= i < j < |docs'| && Truthy(docs'[i].email)
      ensures docs'[i].email != docs'[j].email
    {
      if i != k && j != k {
        assert docs'[i] == docs[i] && docs'[j] == docs[j];
      }
    }
  }

  /** Removing one document keeps the invariant. */
  lemma RemoveKeepsInvariant(docs: seq<User>, k: nat)
    requires TableInvariant(docs) && k < |docs|
    ensures TableInvariant(docs[..k] + docs[k + 1..])
  {
    var docs' := docs[..k] + docs[k + 1..];
    assert forall i :: 0 <= i < |docs'| ==> docs'[i] == docs[if i < k then i else i + 1];
  }

  /** With distinct ids, removing the holder of `id` removes exactly the documents with that id. */
  lemma RemoveDropsOnlyThatId(docs: seq<User>, k: nat, id: string)
    requires IdsDistinct(docs) && k < |docs| && docs[k].id == Some(id)
    ensures forall u :: u in docs[..k] + docs[k + 1..] <==> u in docs && u.id != Some(id)
  {
    var docs' := docs[..k] + docs[k + 1..];
    assert forall i :: 0 <= i < |docs'| ==> docs'[i] == docs[if i < k then i else i + 1];
    forall u ensures u in docs' <==> u in docs && u.id != Some(id) {
      if u in docs && u.id != Some(id) {
        var i :| 0 <= i < |docs| && docs[i] == u;
        assert i != k;
        assert u == docs'[if i < k then i else i - 1];
      }
    }
  }

  // ---------------------------------------------------------------------------
  // The listing order: `findMany({}, { sort: { createdAt: -1 } })`.

  ghost predicate NewestFirst(s: seq<User>)
  {
    forall i, j :: 0 <= i < j < |s| ==> s[i].createdAt >= s[j].createdAt
  }

  ghost predicate PublicNewestFirst(s: seq<PublicUser>)
  {
    forall i, j :: 0 <= i < j < |s| ==> s[i].createdAt >= s[j].createdAt
  }

  /** Inserts `u` into a newest-first sequence, after the documents at least as new. */
  function InsertNewest(u: User, s: seq<User>): (r: seq<User>)
    ensures multiset(r) == multiset(s) + multiset{u}
  {
    if |s| == 0 then [u]
    else if u.createdAt >= s[0].createdAt then [u] + s
    else
      assert s == [s[0]] + s[1..];
      [s[0]] + InsertNewest(u, s[1..])
  }

  lemma {:induction false} InsertNewestSorted(u: User, s: seq<User>)
    requires NewestFirst(s)
    ensures NewestFirst(InsertNewest(u, s))
  {
    if |s| > 0 && u.createdAt < s[0].createdAt {
      var rest := InsertNewest(u, s[1..]);
      InsertNewestSorted(u, s[1..]);
      forall j | 0 <= j < |rest| ensures s[0].createdAt >= rest[j].createdAt {
        assert rest[j] in multiset(rest);
        if rest[j] != u {
          assert rest[j] in multiset(s[1..]);
          var i :| 0 <= i < |s[1..]| && s[1..][i] == rest[j];
          assert s[1..][i] == s[i + 1];
        }
      }
      assert InsertNewest(u, s) == [s[0]] + rest;
    }
  }

  /** The documents ordered by creation time, newest first. */
  function SortNewestFirst(s: seq<User>): (r: seq<User>)
    ensures multiset(r) == multiset(s)
    ensures NewestFirst(r)
  {
    if |s| == 0 then []
    else
      assert s == [s[0]] + s[1..];
      var rest := SortNewestFirst(s[1..]);
      InsertNewestSorted(s[0], rest);
      InsertNewest(s[0], rest)
  }

  /** Each document without its password, in the same order. */
  function StripAll(s: seq<User>): (r: seq<PublicUser>)
  {
    seq(|s|, i requires 0 <= i < |s| => UserWithoutPassword(s[i]))
  }

  lemma StripAllAppend(a: seq<User>, b: seq<User>)
    ensures StripAll(a + b) == StripAll(a) + StripAll(b)
  {
  }

  /** Taking one element out of a sequence takes it out of its multiset. */
  lemma MultisetRemove<T>(s: seq<T>, k: nat)
    requires k < |s|
    ensures multiset(s[..k] + s[k + 1..]) == multiset(s) - multiset{s[k]}
  {
    assert s == s[..k] + [s[k]] + s[k + 1..];
  }

  /** Stripping a sequence with one document taken out loses exactly that document's public view. */
  lemma StripAllRemove(b: seq<User>, k: nat)
    requires k < |b|
    ensures multiset(StripAll(b)) == multiset(StripAll(b[..k] + b[k + 1..])) + multiset{UserWithoutPassword(b[k])}
  {
    var r := StripAll(b);
    StripAllAppend(b[..k], b[k + 1..]);
    assert r[..k] + r[k + 1..] == StripAll(b[..k] + b[k + 1..]);
    MultisetRemove(r, k);
  }

  /** Stripping a non-empty sequence gives its first document's public view and the stripped rest. */
  lemma StripAllFirst(a: seq<User>)
    requires 0 < |a|
    ensures multiset(StripAll(a)) == multiset{UserWithoutPassword(a[0])} + multiset(StripAll(a[1..]))
  {
    var r := StripAll(a);
    assert r == [r[0]] + r[1..];
    assert r[1..] == StripAll(a[1..]);
  }

  /** Stripping permutations of each other gives permutations of each other. */
  lemma {:induction false} StripAllPermutation(a: seq<User>, b: seq<User>)
    requires multiset(a) == multiset(b)
    ensures multiset(StripAll(a)) == multiset(StripAll(b))
    decreases |a|
  {
    if |a| == 0 {
      assert |b| == |multiset(b)| == 0;
    } else {
      var x := a[0];
      assert x in multiset(b);
      var k :| 0 <= k < |b| && b[k] == x;
      MultisetRemove(b, k);
      assert multiset(a) == multiset{x} + multiset(a[1..]) by {
        assert a == [x] + a[1..];
      }
      StripAllPermutation(a[1..], b[..k] + b[k + 1..]);
      StripAllFirst(a);
      StripAllRemove(b, k);
    }
  }

  /** Stripping a newest-first permutation of the documents lists them all, newest first. */
  lemma StrippedListing(sorted: seq<User>, docs: seq<User>, out: seq<PublicUser>)
    requires multiset(sorted) == multiset(docs) && NewestFirst(sorted)
    requires |out| == |sorted| && forall j :: 0 <= j < |out| ==> out[j] == UserWithoutPassword(sorted[j])
    ensures PublicNewestFirst(out) && multiset(out) == multiset(StripAll(docs))
  {
    assert out == StripAll(sorted);
    StripAllPermutation(sorted, docs);
  }

  // ---------------------------------------------------------------------------

  class UserService {
    /** The users collection, in natural order. */
    var docs: seq<User>
    /** When present, the database is unreachable and every driver call throws this message. */
    const fault: Option<string>

    ghost predicate Valid()
      reads this
    {
      TableInvariant(docs)
    }

    constructor (docs: seq<User>, fault: Option<string>)
      requires TableInvariant(docs)
      ensures Valid() && this.docs == docs && this.fault == fault
    {
      this.docs := docs;
      this.fault := fault;
    }

    /** The collection as the guards read it. */
    function Snapshot(): Collection<User>
      reads this
    {
      Collection(docs, fault)
    }

    /** `findById(id)`: under the invariant, the one document with that id. */
    function FindById(id: string): (r: Outcome<Option<User>>)
      reads this
      ensures r.Thrown? <==> fault.Some?
      ensures r.Ok? ==> (r.value.Some? <==> exists k :: 0 <= k < |docs| && docs[k].id == Some(id))
      ensures Valid() && r.Ok? && r.value.Some? ==>
        forall k :: 0 <= k < |docs| && docs[k].id == Some(id) ==> r.value.value == docs[k]
    {
      var r := FindOne(Snapshot(), UserIdIs(id));
      assert forall k :: 0 <= k < |docs| && docs[k].id == Some(id) ==> UserIdIs(id)(docs[k]);
      assert Valid() && r.Ok? && r.value.Some? ==>
        forall k :: 0 <= k < |docs| && docs[k].id == Some(id) ==> r.value.value == docs[k] by {
        if Valid() && r.Ok? && r.value.Some? {
          forall k | 0 <= k < |docs| && docs[k].id == Some(id) ensures r.value.value == docs[k] {
            FindByDistinctId(docs, k);
          }
        }
      }
      r
    }

    /** `findByUsername(name)`: under the invariant, the one holder of a non-empty username. */
    function FindByUsername(username: string): (r: Outcome<Option<User>>)
      reads this
      ensures r.Thrown? <==> fault.Some?
      ensures r.Ok? ==> (r.value.Some? <==> UsernameTaken(docs, username))
      ensures r.Ok? && r.value.Some? ==> r.value.value in docs && r.value.value.username == username
      ensures Valid() && username != "" && r.Ok? && r.value.Some? ==>
        forall k :: 0 <= k < |docs| && docs[k].username == username ==> r.value.value == docs[k]
    {
      var r := FindOne(Snapshot(), UsernameIs(username));
      assert forall k :: 0 <= k < |docs| && docs[k].username == username ==> UsernameIs(username)(docs[k]);
      assert Valid() && username != "" && r.Ok? && r.value.Some? ==>
        forall k :: 0 <= k < |docs| && docs[k].username == username ==> r.value.value == docs[k] by {
        if Valid() && username != "" && r.Ok? && r.value.Some? {
          forall k | 0 <= k < |docs| && docs[k].username == username ensures r.value.value == docs[k] {
            FindByDistinctUsername(docs, k);
          }
        }
      }
      r
    }

    /** `findByEmail(email)`: under the invariant, the one holder of a non-empty email. */
    function FindByEmail(email: string): (r: Outcome<Option<User>>)
      reads this
      ensures r.Thrown? <==> fault.Some?
      ensures r.Ok? ==> (r.value.Some? <==> EmailTaken(docs, email))
      ensures r.Ok? && r.value.Some? ==> r.value.value in docs && r.value.value.email == Some(email)
      ensures Valid() && email != "" && r.Ok? && r.value.Some? ==>
        forall k :: 0 <= k < |docs| && docs[k].email == Some(email) ==> r.value.value == docs[k]
    {
      var r := FindOne(Snapshot(), EmailIs(email));
      assert forall k :: 0 <= k < |docs| && docs[k].email == Some(email) ==> EmailIs(email)(docs[k]);
      assert Valid() && email != "" && r.Ok? && r.value.Some? ==>
        forall k :: 0 <= k < |docs| && docs[k].email == Some(email) ==> r.value.value == docs[k] by {
        if Valid() && email != "" && r.Ok? && r.value.Some? {
          forall k | 0 <= k < |docs| && docs[k].email == Some(email) ensures r.value.value == docs[k] {
            FindByDistinctEmail(docs, k);
          }
        }
      }
      r
    }

    /**
     * `verifyCredentials`: the user when the password verifies against the
     * holder of the username; one message for an unknown user and a wrong
     * password, another when the database fails.
     */
    function VerifyCredentials(username: string, password: string): (r: Verified)
      reads this
      ensures r.user.None? ==> r.error == Some(if fault.Some? then VerifyFailed else InvalidCredentials)
      ensures r.user.Some? ==> r.error.None?
      ensures r.user.Some? ==>
        exists k :: && 0 <= k < |docs| && docs[k].username == username
                    && Verify(password, docs[k].password) && r.user.value == UserWithoutPassword(docs[k])
      ensures Valid() && username != "" ==>
        (r.user.Some? <==> fault.None? && exists k :: 0 <= k < |docs| && docs[k].username == username
                                                     && Verify(password, docs[k].password))
    {
      match FindByUsername(username)
      case Thrown(_) => Verified(None, Some(VerifyFailed))
      case Ok(None) => Verified(None, Some(InvalidCredentials))
      case Ok(Some(user)) =>
        if !Verify(password, user.password) then Verified(None, Some(InvalidCredentials))
        else
          assert exists k :: 0 <= k < |docs| && docs[k] == user;
          Verified(Some(UserWithoutPassword(user)), None)
    }

    /** `getUserById(id)`: the document with that id, without its password. */
    function GetUserById(id: string): (r: Outcome<Option<PublicUser>>)
      reads this
      ensures r.Thrown? <==> fault.Some?
      ensures r.Ok? ==> (r.value.Some? <==> exists k :: 0 <= k < |docs| && docs[k].id == Some(id))
      ensures r.Ok? && r.value.Some? ==>
        exists k :: 0 <= k < |docs| && docs[k].id == Some(id) && r.value.value == UserWithoutPassword(docs[k])
    {
      match FindById(id)
      case Thrown(m) => Thrown(m)
      case Ok(None) => Ok(None)
      case Ok(Some(user)) =>
        assert exists k :: 0 <= k < |docs| && docs[k] == user;
        Ok(Some(UserWithoutPassword(user)))
    }

    /**
     * `createUser`: refuses a taken username, then (only when an email is
     * given) a taken email; otherwise appends a document holding the hash of
     * the password. `newId` is the id the database assigns.
     */
    method CreateUser(username: string, email: Option<string>, password: string, now: Timestamp, newId: string)
      returns (r: Outcome<User>)
      requires Valid()
      requires newId != "" && forall k :: 0 <= k < |docs| ==> docs[k].id != Some(newId)
      modifies this
      ensures Valid()
      ensures r.Thrown? ==> docs == old(docs)
      ensures fault.Some? ==> r == Thrown(fault.value)
      ensures fault.None? && UsernameTaken(old(docs), username) ==> r == Thrown(UsernameExists)
      ensures (fault.None? && !UsernameTaken(old(docs), username) && Truthy(email)
               && EmailTaken(old(docs), email.value)) ==> r == Thrown(EmailExists)
      ensures fault.None? && !UsernameTaken(old(docs), username)
              && !(Truthy(email) && EmailTaken(old(docs), email.value)) ==>
        && r == Ok(User(Some(newId), username, email, Hash(password), now, now))
        && docs == old(docs) + [r.value]
    {
      match FindByUsername(username) {
        case Thrown(m) => return Thrown(m);
        case Ok(Some(_)) => return Thrown(UsernameExists);
        case Ok(None) =>
      }
      if Truthy(email) {
        match FindByEmail(email.value) {
          case Thrown(m) => return Thrown(m);
          case Ok(Some(_)) => return Thrown(EmailExists);
          case Ok(None) =>
        }
      }
      var user := User(Some(newId), username, email, Hash(password), now, now);
      docs := docs + [user];
      return Ok(user);
    }

    /** `updatePassword`: stores the hash of the new password; true exactly when the document existed. */
    method UpdatePassword(userId: string, newPassword: string, now: Timestamp) returns (ok: bool)
      requires Valid()
      modifies this
      ensures Valid()
      ensures ok <==> fault.None? && exists k :: 0 <= k < |old(docs)| && old(docs)[k].id == Some(userId)
      ensures !ok ==> docs == old(docs)
      ensures ok ==> exists k :: && 0 <= k < |old(docs)| && old(docs)[k].id == Some(userId)
                               && docs == old(docs)[k := old(docs)[k].(password := Hash(newPassword), updatedAt := now)]
    {
      if fault.Some? {
        return false;
      }
      match FirstIndex(docs, UserIdIs(userId)) {
        case None =>
          assert forall k :: 0 <= k < |docs| ==> !UserIdIs(userId)(docs[k]);
          return false;
        case Some(k) =>
          ReplaceKeepsInvariant(docs, k, docs[k].(password := Hash(newPassword), updatedAt := now));
          docs := docs[k := docs[k].(password := Hash(newPassword), updatedAt := now)];
          return true;
      }
    }

    /**
     * `updateUser`: refuses a username, then an email, held by a document
     * other than the one being updated (an empty value is not checked); then
     * applies the given fields, or answers null when there is no such document.
     */
    method UpdateUser(userId: string, username: Option<string>, email: Option<string>, now: Timestamp)
      returns (r: Outcome<Option<PublicUser>>)
      requires Valid()
      modifies this
      ensures Valid()
      ensures !(r.Ok? && r.value.Some?) ==> docs == old(docs)
      ensures fault.Some? ==> r == Thrown(fault.value)
      ensures fault.None? ==>
        (r == Thrown(UsernameExists) <==> Truthy(username) && UsernameOwnedByOther(old(docs), username.value, userId))
      ensures fault.None? && !(Truthy(username) && UsernameOwnedByOther(old(docs), username.value, userId)) ==>
        (r == Thrown(EmailExists) <==> Truthy(email) && EmailOwnedByOther(old(docs), email.value, userId))
      ensures r.Ok? <==> && fault.None?
                         && !(Truthy(username) && UsernameOwnedByOther(old(docs), username.value, userId))
                         && !(Truthy(email) && EmailOwnedByOther(old(docs), email.value, userId))
      ensures r.Ok? ==> (r.value.None? <==> forall k :: 0 <= k < |old(docs)| ==> old(docs)[k].id != Some(userId))
      ensures r.Ok? && r.value.Some? ==>
        exists k :: && 0 <= k < |old(docs)| && old(docs)[k].id == Some(userId)
                    && docs == old(docs)[k := ApplyProfile(old(docs)[k], username, email, now)]
                    && r.value.value == UserWithoutPassword(docs[k])
    {
      if Truthy(username) {
        UsernameCheck(docs, username.value, userId);
        match FindByUsername(username.value) {
          case Thrown(m) => return Thrown(m);
          case Ok(Some(existing)) =>
            if existing.id != Some(userId) {
              return Thrown(UsernameExists);
            }
          case Ok(None) =>
        }
      }
      if Truthy(email) {
        EmailCheck(docs, email.value, userId);
        match FindByEmail(email.value) {
          case Thrown(m) => return Thrown(m);
          case Ok(Some(existing)) =>
            if existing.id != Some(userId) {
              return Thrown(EmailExists);
            }
          case Ok(None) =>
        }
      }
      r := UpdateProfileById(userId, username, email, now);
    }

    /** The base service's `updateById` with a profile update whose username and email are free. */
    method UpdateProfileById(userId: string, username: Option<string>, email: Option<string>, now: Timestamp)
      returns (r: Outcome<Option<PublicUser>>)
      requires Valid()
      requires !(Truthy(username) && UsernameOwnedByOther(docs, username.value, userId))
      requires !(Truthy(email) && EmailOwnedByOther(docs, email.value, userId))
      modifies this
      ensures Valid()
      ensures !(r.Ok? && r.value.Some?) ==> docs == old(docs)
      ensures r.Thrown? <==> fault.Some?
      ensures r.Thrown? ==> r.message == fault.value
      ensures r.Ok? ==> (r.value.None? <==> forall k :: 0 <= k < |old(docs)| ==> old(docs)[k].id != Some(userId))
      ensures r.Ok? && r.value.Some? ==>
        exists k :: && 0 <= k < |old(docs)| && old(docs)[k].id == Some(userId)
                    && docs == old(docs)[k := ApplyProfile(old(docs)[k], username, email, now)]
                    && r.value.value == UserWithoutPassword(docs[k])
    {
      if fault.Some? {
        return Thrown(fault.value);
      }
      match FirstIndex(docs, UserIdIs(userId)) {
        case None =>
          assert forall k :: 0 <= k < |docs| ==> !UserIdIs(userId)(docs[k]);
          return Ok(None);
        case Some(k) =>
          var updated := ApplyProfile(docs[k], username, email, now);
          forall j | 0 <= j < |docs| && j != k ensures docs[j].id != Some(userId) {
            assert j < k || k < j;
          }
          ReplaceKeepsInvariant(docs, k, updated);
          docs := docs[k := updated];
          return Ok(Some(UserWithoutPassword(updated)));
      }
    }

    /** `deleteUser`: true exactly when a document with the id was removed; the others stay. */
    method DeleteUser(userId: string) returns (r: Outcome<bool>)
      requires Valid()
      modifies this
      ensures Valid()
      ensures fault.Some? ==> r == Thrown(fault.value)
      ensures fault.None? ==> r.Ok? && (r.value <==> exists k :: 0 <= k < |old(docs)| && old(docs)[k].id == Some(userId))
      ensures !(r.Ok? && r.value) ==> docs == old(docs)
      ensures r.Ok? && r.value ==> exists k :: && 0 <= k < |old(docs)| && old(docs)[k].id == Some(userId)
                                             && docs == old(docs)[..k] + old(docs)[k + 1..]
      ensures forall u :: u in docs <==> u in old(docs) && (r == Ok(true) ==> u.id != Some(userId))
    {
      if fault.Some? {
        return Thrown(fault.value);
      }
      match FirstIndex(docs, UserIdIs(userId)) {
        case None =>
          assert forall k :: 0 <= k < |docs| ==> !UserIdIs(userId)(docs[k]);
          return Ok(false);
        case Some(k) =>
          RemoveKeepsInvariant(docs, k);
          RemoveDropsOnlyThatId(docs, k, userId);
          docs := docs[..k] + docs[k + 1..];
          return Ok(true);
      }
    }

    /** `getAllUsers`: every document without its password, newest first. */
    method GetAllUsers() returns (r: Outcome<seq<PublicUser>>)
      ensures r.Thrown? <==> fault.Some?
      ensures r.Thrown? ==> r.message == fault.value
      ensures r.Ok? ==> PublicNewestFirst(r.value) && multiset(r.value) == multiset(StripAll(docs))
    {
      if fault.Some? {
        return Thrown(fault.value);
      }
      var sorted := SortNewestFirst(docs);
      var out: seq<PublicUser> := [];
      for i := 0 to |sorted|
        invariant |out| == i
        invariant forall j :: 0 <= j < i ==> out[j] == UserWithoutPassword(sorted[j])
      {
        out := out + [UserWithoutPassword(sorted[i])];
      }
      StrippedListing(sorted, docs, out);
      return Ok(out);
    }
  }
}
