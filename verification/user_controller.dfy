/**
  The account endpoints of `UserController`, each a pure transition from the
  user table to a `Response`: the HTTP status, the user placed in the response
  body (if any) and the table afterwards. JSON mapping is dropped; the
  collaborators the controller calls into (`Authenticator.isExpectedPassword`,
  `UserService.createUser`, `User.mergeDataFromOtherInstance`) are parameters.
 */
module UserController {
  import opened Maybe
  import opened UserRepository

  /** The HTTP statuses the endpoints answer with; `ServerError` is an uncaught exception. */
  datatype Status = Ok | Created | BadRequest | Unauthorized | NotFound | Conflict | ServerError

  datatype Response = Response(status: Status, user: Option<User>, store: Store)

  /** `Authenticator.isExpectedPassword(password, salt, expectedHash)`. */
  type PasswordCheck = (string, Bytes, Bytes) -> bool

  /** `UserService.createUser(userName, email, password)`. */
  type CreateUser = (string, string, string) -> User

  /** The user object sent by the app: its id, possibly `null`, and its fields. */
  datatype AppUser = AppUser(id: Option<UserId>, fields: User)

  /** `dbUser.mergeDataFromOtherInstance(appUser)`, as the merged record. */
  type Merge = (User, AppUser) -> User

  /** `isEmailAvailable`: no stored user has this email. */
  function IsEmailAvailable(s: Store, email: string): (b: bool)
    ensures b <==> forall i :: 0 <= i < |s| ==> s[i].email != email
  {
    FindByEmail(s, email).None?
  }

  /** `isUserNameAvailable`: no stored user has this name. */
  function IsUserNameAvailable(s: Store, userName: string): (b: bool)
    ensures b <==> forall i :: 0 <= i < |s| ==> s[i].userName != userName
  {
    FindByUserName(s, userName).None?
  }

  /**
    `authenticate`: UNAUTHORIZED, with an empty body, when no user has the email
    or the password does not match that user's salt and hash; OK with the user
    otherwise. The table is only read.
   */
  function Authenticate(s: Store, email: string, password: string, isExpectedPassword: PasswordCheck): (r: Response)
    ensures r.store == s
    ensures r.status == Ok || r.status == Unauthorized
    ensures r.status == Ok <==> r.user.Some?
    ensures !Taken(s, EmailColumn, email) ==> r.status == Unauthorized
    ensures r.status == Ok ==>
      && r.user.value in s
      && r.user.value.email == email
      && isExpectedPassword(password, r.user.value.salt, r.user.value.password)
  {
    match FindByEmail(s, email)
    case None => Response(Unauthorized, None, s)
    case Some(u) =>
      if !isExpectedPassword(password, u.salt, u.password) then Response(Unauthorized, None, s)
      else Response(Ok, Some(u), s)
  }

  /** In a table with unique emails, login succeeds exactly when the password matches the one user with that email. */
  lemma AuthenticateChecksTheOwner(s: Store, i: nat, password: string, isExpectedPassword: PasswordCheck)
    requires Unique(s) && i < |s|
    ensures var r := Authenticate(s, s[i].email, password, isExpectedPassword);
      && (r.status == Ok <==> isExpectedPassword(password, s[i].salt, s[i].password))
      && (r.status == Ok ==> r.user == Some(s[i]))
  {
  }

  /** `reloadUser`: NOT_FOUND exactly when no user has the id, otherwise OK with that user. */
  function ReloadUser(s: Store, id: UserId): (r: Response)
    ensures r.store == s
    ensures r.status == Ok || r.status == NotFound
    ensures r.status == NotFound <==> id >= |s|
    ensures r.status == NotFound ==> r.user.None?
    ensures r.status == Ok ==> r.user == Some(s[id])
  {
    match FindById(s, id)
    case None => Response(NotFound, None, s)
    case Some(u) => Response(Ok, Some(u), s)
  }

  /**
    `updateUser`: NOT_FOUND with the table unchanged when the app sent no user,
    a user without id, or an id nobody has. Otherwise the stored record with that
    id is replaced by the merge of it and the app's user, and no other record changes.
   */
  function UpdateUser(s: Store, appUser: Option<AppUser>, merge: Merge): (r: Response)
    ensures r.status == Ok || r.status == NotFound
    ensures r.status == NotFound <==> appUser.None? || appUser.value.id.None? || appUser.value.id.value >= |s|
    ensures r.status == NotFound ==> r.store == s && r.user.None?
    ensures r.status == Ok ==>
      var id := appUser.value.id.value;
      && |r.store| == |s|
      && r.store[id] == merge(s[id], appUser.value)
      && r.user == Some(r.store[id])
      && forall j :: 0 <= j < |s| && j != id ==> r.store[j] == s[j]
  {
    if appUser.None? || appUser.value.id.None? then Response(NotFound, None, s)
    else
      var id := appUser.value.id.value;
      match FindById(s, id)
      case None => Response(NotFound, None, s)
      case Some(dbUser) =>
        var merged := merge(dbUser, appUser.value);
        Response(Ok, Some(merged), s[id := merged])
  }

  /**
    `updateUser` checks no availability before saving: after an OK update, names
    and emails stay unique exactly when no other user holds the merged record's
    name or email.
   */
  lemma UpdateUserUniqueIff(s: Store, appUser: Option<AppUser>, merge: Merge)
    requires Unique(s)
    requires UpdateUser(s, appUser, merge).status == Ok
    ensures var r := UpdateUser(s, appUser, merge);
      var id := appUser.value.id.value;
      Unique(r.store) <==>
        forall j :: 0 <= j < |s| && j != id ==>
          s[j].userName != r.store[id].userName && s[j].email != r.store[id].email
  {
  }

  /** A merge that takes the app's email can give two users the same email. */
  lemma UpdateUserCanDuplicateEmail()
    ensures var s := [User("alice", "a@x.com", [], []), User("bob", "b@x.com", [], [])];
      var r := UpdateUser(s, Some(AppUser(Some(1), User("bob", "a@x.com", [], []))), (u: User, a: AppUser) => a.fields);
      Unique(s) && r.status == Ok && !Unique(r.store)
  {
    var s := [User("alice", "a@x.com", [], []), User("bob", "b@x.com", [], [])];
    var r := UpdateUser(s, Some(AppUser(Some(1), User("bob", "a@x.com", [], []))), (u: User, a: AppUser) => a.fields);
    assert r.store[0].email == r.store[1].email;
  }

  /**
    `checkUsernameAvailability` as written: CONFLICT when nobody has the name,
    OK when somebody does. This is the opposite of what the endpoint's
    comments describe; see `CheckUsernameAvailabilityIntended`.
   */
  function CheckUsernameAvailability(s: Store, userName: string): (st: Status)
    ensures st == Conflict <==> !Taken(s, UserNameColumn, userName)
    ensures st == Ok <==> Taken(s, UserNameColumn, userName)
  {
    if IsUserNameAvailable(s, userName) then Conflict else Ok
  }

  /** `checkMail` as written: CONFLICT when nobody has the email, OK when somebody does. */
  function CheckMail(s: Store, email: string): (st: Status)
    ensures st == Conflict <==> !Taken(s, EmailColumn, email)
    ensures st == Ok <==> Taken(s, EmailColumn, email)
  {
    if IsEmailAvailable(s, email) then Conflict else Ok
  }

  /** The availability check as its comments describe it: CONFLICT exactly when the name is already in use. */
  function CheckUsernameAvailabilityIntended(s: Store, userName: string): (st: Status)
    ensures st == Conflict <==> Taken(s, UserNameColumn, userName)
    ensures st == Ok <==> !Taken(s, UserNameColumn, userName)
  {
    if IsUserNameAvailable(s, userName) then Ok else Conflict
  }

  /** The email check as its comments describe it: CONFLICT exactly when the email is already in use. */
  function CheckMailIntended(s: Store, email: string): (st: Status)
    ensures st == Conflict <==> Taken(s, EmailColumn, email)
    ensures st == Ok <==> !Taken(s, EmailColumn, email)
  {
    if IsEmailAvailable(s, email) then Ok else Conflict
  }

  /** On an empty table every name and email is free, yet both checks answer CONFLICT. */
  lemma AvailabilityChecksInverted()
    ensures CheckUsernameAvailability([], "alice") == Conflict
    ensures CheckMail([], "alice@x.com") == Conflict
    ensures CheckUsernameAvailabilityIntended([], "alice") == Ok
    ensures CheckMailIntended([], "alice@x.com") == Ok
  {
  }

  /** On every table and every input, the checks as written give the opposite verdict of the intended ones. */
  lemma AvailabilityChecksAlwaysOpposite(s: Store, v: string)
    ensures CheckUsernameAvailability(s, v) == Ok <==> CheckUsernameAvailabilityIntended(s, v) == Conflict
    ensures CheckMail(s, v) == Ok <==> CheckMailIntended(s, v) == Conflict
  {
  }

  /**
    `registerUser`: CONFLICT with the table unchanged when the username is taken,
    or else when the email is taken; otherwise CREATED, and the table grows by
    exactly the user `createUser` built.
   */
  function RegisterUser(s: Store, userName: string, email: string, password: string, createUser: CreateUser): (r: Response)
    ensures r.status == Created || r.status == Conflict
    ensures r.status == Conflict <==> Taken(s, UserNameColumn, userName) || Taken(s, EmailColumn, email)
    ensures r.status == Conflict ==> r.store == s && r.user.None?
    ensures r.status == Created ==>
      && |r.store| == |s| + 1
      && r.store[..|s|] == s
      && r.store[|s|] == createUser(userName, email, password)
      && r.user == Some(r.store[|s|])
  {
    if FindByUserName(s, userName).Some? then Response(Conflict, None, s)
    else if FindByEmail(s, email).Some? then Response(Conflict, None, s)
    else
      var user := createUser(userName, email, password);
      Response(Created, Some(user), s + [user])
  }

  /** A registration keeps names and emails unique, given that `createUser` keeps the name and email it was given. */
  lemma RegisterUserPreservesUnique(s: Store, userName: string, email: string, password: string, createUser: CreateUser)
    requires Unique(s)
    requires createUser(userName, email, password).userName == userName
    requires createUser(userName, email, password).email == email
    ensures Unique(RegisterUser(s, userName, email, password, createUser).store)
  {
  }

  /** A newly registered user can be reloaded under the next free id. */
  lemma ReloadAfterRegister(s: Store, userName: string, email: string, password: string, createUser: CreateUser)
    requires RegisterUser(s, userName, email, password, createUser).status == Created
    ensures var r := RegisterUser(s, userName, email, password, createUser);
      ReloadUser(r.store, |s|) == Response(Ok, r.user, r.store)
  {
  }

  /** `findByUsername`: BAD_REQUEST when nobody has the name, otherwise OK with that user. */
  function FindByUsername(s: Store, userName: string): (r: Response)
    ensures r.store == s
    ensures r.status == Ok || r.status == BadRequest
    ensures r.status == BadRequest <==> !Taken(s, UserNameColumn, userName)
    ensures r.status == BadRequest ==> r.user.None?
    ensures r.status == Ok ==> r.user.Some? && r.user.value in s && r.user.value.userName == userName
  {
    if IsUserNameAvailable(s, userName) then Response(BadRequest, None, s)
    else Response(Ok, FindByUserName(s, userName), s)
  }

  /** `findByMail`: BAD_REQUEST when nobody has the email, otherwise OK with that user. */
  function FindByMail(s: Store, email: string): (r: Response)
    ensures r.store == s
    ensures r.status == Ok || r.status == BadRequest
    ensures r.status == BadRequest <==> !Taken(s, EmailColumn, email)
    ensures r.status == BadRequest ==> r.user.None?
    ensures r.status == Ok ==> r.user.Some? && r.user.value in s && r.user.value.email == email
  {
    if IsEmailAvailable(s, email) then Response(BadRequest, None, s)
    else Response(Ok, FindByEmail(s, email), s)
  }

  /** With unique names and emails, the lookups return the one matching user. */
  lemma FindReturnsTheOwner(s: Store, i: nat)
    requires Unique(s) && i < |s|
    ensures FindByUsername(s, s[i].userName).user == Some(s[i])
    ensures FindByMail(s, s[i].email).user == Some(s[i])
  {
  }

  /**
    `updateUserEmail` as written: when nobody has the new email the stored user
    gets it and the answer is OK, but for an id nobody has, `dbUser` is `null`
    and `setEmail` throws. When the email is in use — the user's own included —
    the answer is CONFLICT with the table unchanged and the stored user, if any,
    in the body.
   */
  function UpdateUserEmail(s: Store, id: UserId, newEmail: string): (r: Response)
    ensures r.status == Ok || r.status == Conflict || r.status == ServerError
    ensures r.status == Conflict <==> Taken(s, EmailColumn, newEmail)
    ensures r.status == Conflict ==> r.store == s && r.user == FindById(s, id)
    ensures r.status == ServerError <==> !Taken(s, EmailColumn, newEmail) && id >= |s|
    ensures r.status == ServerError ==> r.store == s
    ensures r.status == Ok ==>
      && id < |s| && |r.store| == |s|
      && r.store[id].email == newEmail
      && r.store[id].(email := s[id].email) == s[id]
      && r.user == Some(r.store[id])
      && forall j :: 0 <= j < |s| && j != id ==> r.store[j] == s[j]
  {
    var dbUser := FindById(s, id);
    if IsEmailAvailable(s, newEmail) then
      match dbUser
      case None => Response(ServerError, None, s)
      case Some(u) =>
        var updated := u.(email := newEmail);
        Response(Ok, Some(updated), s[id := updated])
    else Response(Conflict, dbUser, s)
  }

  /** Asking for the email one already has is refused, like any email in use. */
  lemma UpdateUserEmailOwnEmailConflicts(s: Store, id: UserId)
    requires id < |s|
    ensures UpdateUserEmail(s, id, s[id].email).status == Conflict
    ensures UpdateUserEmail(s, id, s[id].email).store == s
  {
  }

  /** An email change keeps names and emails unique. */
  lemma UpdateUserEmailPreservesUnique(s: Store, id: UserId, newEmail: string)
    requires Unique(s)
    ensures Unique(UpdateUserEmail(s, id, newEmail).store)
  {
  }

  /** After a successful change in a table with unique emails, looking up the new email finds the changed user. */
  lemma FindByMailAfterEmailChange(s: Store, id: UserId, newEmail: string)
    requires Unique(s)
    requires UpdateUserEmail(s, id, newEmail).status == Ok
    ensures var r := UpdateUserEmail(s, id, newEmail);
      FindByMail(r.store, newEmail).user == Some(r.store[id])
  {
  }

  /** For an id nobody has and a free email, the endpoint fails with an exception instead of answering. */
  lemma UpdateUserEmailFailsOnMissingUser()
    ensures UpdateUserEmail([], 0, "alice@x.com").status == ServerError
  {
  }

  /** `updateUserEmail` with the missing-user guard `updateUser` has: NOT_FOUND before anything else. */
  function UpdateUserEmailChecked(s: Store, id: UserId, newEmail: string): (r: Response)
    ensures r.status == Ok || r.status == Conflict || r.status == NotFound
    ensures r.status == NotFound <==> id >= |s|
    ensures r.status == NotFound ==> r.store == s && r.user.None?
    ensures r.status == Conflict <==> id < |s| && Taken(s, EmailColumn, newEmail)
    ensures r.status == Conflict ==> r.store == s
    ensures r.status == Ok ==>
      && |r.store| == |s|
      && r.store[id].email == newEmail
      && r.store[id].(email := s[id].email) == s[id]
      && forall j :: 0 <= j < |s| && j != id ==> r.store[j] == s[j]
  {
    if id >= |s| then Response(NotFound, None, s) else UpdateUserEmail(s, id, newEmail)
  }

  /** The guard changes nothing for a user that exists. */
  lemma UpdateUserEmailCheckedAgrees(s: Store, id: UserId, newEmail: string)
    requires id < |s|
    ensures UpdateUserEmailChecked(s, id, newEmail) == UpdateUserEmail(s, id, newEmail)
  {
  }

  /**
    Register, a second registration under the same name, and a correct and a
    wrong login, on a table that starts empty.
   */
  lemma RegisterThenLoginScenario(createUser: CreateUser, isExpectedPassword: PasswordCheck, salt: Bytes, hash: Bytes)
    requires createUser("alice", "alice@x.com", "pw123") == User("alice", "alice@x.com", salt, hash)
    requires isExpectedPassword("pw123", salt, hash) && !isExpectedPassword("wrongpw", salt, hash)
    ensures var first := RegisterUser([], "alice", "alice@x.com", "pw123", createUser);
      && first.status == Created
      && RegisterUser(first.store, "alice", "other@x.com", "pw", createUser).status == Conflict
      && Authenticate(first.store, "alice@x.com", "pw123", isExpectedPassword).status == Ok
      && Authenticate(first.store, "alice@x.com", "wrongpw", isExpectedPassword).status == Unauthorized
  {
  }
}
