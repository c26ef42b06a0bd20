# Account store, friendship edges and label localisation

A Dafny model of three pieces of a social/event-sharing backend:

- **Friendship edges** (`Friendship`): a friendship request between two users.
  A new edge starts pending and open. The `Friendships` module models its flags
  and timestamps, and the back-reference lists each user keeps
  (`friendshipsFriend1`, `friendshipsFriend2`). The lists form a store keyed by
  user id, and each `Friendship` object is known by its object identity
  (`EdgeRef`). `Valid` is the back-reference invariant. It says that every
  listed edge exists, that no list holds an edge twice, and that every edge is
  listed with its current endpoints. Every operation preserves it.
- **Account endpoints** (`UserController`): each endpoint is a pure transition.
  It takes the user table and returns a `Response`: the HTTP status, the user
  in the response body (if any) and the table afterwards. The table
  (`UserRepository`) is a sequence of user records in insertion order. A user's
  id is its position. Lookups by name or email return the first match. The
  invariant of interest is `Unique`: user names are pairwise distinct, and so
  are emails.
- **Label localisation** (`LabelText`): `setTextByLanguage` chooses the German
  wording for any spelling of "DE", compared case-insensitively over ASCII.
  For every other language it chooses the English wording.

Collaborators the code calls but whose code is not part of this model are
function-typed parameters:

- `Authenticator.isExpectedPassword` is `PasswordCheck`.
- `UserService.createUser` is `CreateUser`.
- `User.mergeDataFromOtherInstance` is `Merge`.

The clock read by the `@PrePersist`/`@PreUpdate` hooks is an `Instant` passed
in. A Java `null` is `Option.None`.

## Model

| member | source | states |
|---|---|---|
| Labels.NewLabel | src/main/java/com/sebastianfox/food/models/LabelText.java:16-26 | a new label has empty `text` and null id, identifier and both wordings |
| Labels.UpperIsDEIffGermanCode | src/main/java/com/sebastianfox/food/models/LabelText.java:29 | ASCII upper-casing yields "DE" exactly for "de", "De", "dE" and "DE" |
| Labels.SetTextByLanguage | src/main/java/com/sebastianfox/food/models/LabelText.java:28-35 | the German code in any case selects `lblGerman`, every other language selects `lblEnglish`; id, identifier and both wordings are untouched |
| Labels.GermanSpellingsSelectGerman | src/main/java/com/sebastianfox/food/models/LabelText.java:29-30 | "de", "De", "dE" and "DE" each select the German wording |
| Labels.OtherLengthSelectsEnglish | src/main/java/com/sebastianfox/food/models/LabelText.java:31-33 | a language whose length is not 2 selects the English wording |
| Labels.SelectionIsCaseInsensitive | src/main/java/com/sebastianfox/food/models/LabelText.java:29 | a language and its upper-cased form give the same label |
| Labels.LastSelectionWins | src/main/java/com/sebastianfox/food/models/LabelText.java:28-35 | two selections in a row equal the second one alone, because only `text` is written |
| Labels.SelectionIsIdempotent | src/main/java/com/sebastianfox/food/models/LabelText.java:28-35 | selecting the same language twice equals selecting it once |
| Friendships.EmptyGraphIsValid | src/main/java/com/sebastianfox/food/models/Friendship.java:19-29 | the empty graph satisfies the back-reference invariant, so the invariant is satisfiable |
| Friendships.Register | src/main/java/com/sebastianfox/food/models/Friendship.java:50-56 | after the guarded add, the edge is in the user's list, the old list is a prefix of the new one, nothing but the edge was added, other users' lists are unchanged, and a duplicate-free list stays duplicate-free |
| Friendships.RegisterIsIdempotent | src/main/java/com/sebastianfox/food/models/Friendship.java:73-75 | repeating the guarded add leaves the lists unchanged |
| Friendships.RegisterListsOnce | src/main/java/com/sebastianfox/food/models/Friendship.java:84-86 | after the guarded add to a duplicate-free list, the edge occurs in it exactly once |
| Friendships.BlankEdge | src/main/java/com/sebastianfox/food/models/Friendship.java:31-44 | the no-argument constructor gives a pending (`accepted = false`), open edge with null ends and timestamps |
| Friendships.NewFriendship | src/main/java/com/sebastianfox/food/models/Friendship.java:46-57 | the new edge has `friend1 = u1`, `friend2 = u2`, is pending and open, is in `u1`'s first list and `u2`'s second list; other edges and other users' lists are unchanged |
| Friendships.NewFriendshipPreservesValid | src/main/java/com/sebastianfox/food/models/Friendship.java:46-57 | on a valid graph, the constructor appends the new edge exactly once to each endpoint's list and keeps the graph valid |
| Friendships.SetFriend1 | src/main/java/com/sebastianfox/food/models/Friendship.java:71-76 | only `friend1` of the edge changes, to `u`; the edge is listed with `u`, and `u`'s first list keeps its entries and gains only the edge, and only when it was missing; first lists of other users and all second lists are unchanged |
| Friendships.SetFriend2 | src/main/java/com/sebastianfox/food/models/Friendship.java:82-87 | only `friend2` of the edge changes, to `u`; `u`'s second list keeps its entries and gains only the edge, and only when it was missing; second lists of other users and all first lists are unchanged |
| Friendships.SetFriend1PreservesValid | src/main/java/com/sebastianfox/food/models/Friendship.java:71-76 | re-pointing the first end keeps the back-reference invariant |
| Friendships.SetFriend2PreservesValid | src/main/java/com/sebastianfox/food/models/Friendship.java:82-87 | re-pointing the second end keeps the back-reference invariant |
| Friendships.SetFriendIsIdempotent | src/main/java/com/sebastianfox/food/models/Friendship.java:71-87 | re-pointing an end to the same user twice equals doing it once |
| Friendships.SetFriend1KeepsPreviousListing | src/main/java/com/sebastianfox/food/models/Friendship.java:71-76 | after re-pointing, the edge is still listed with the previous first friend as well as with the new one |
| Friendships.SetAccepted | src/main/java/com/sebastianfox/food/models/Friendship.java:93-95 | `accepted` becomes `b` and no other field changes |
| Friendships.SetOpen | src/main/java/com/sebastianfox/food/models/Friendship.java:101-103 | `open` becomes false whatever it was, and no other field changes |
| Friendships.PrePersist | src/main/java/com/sebastianfox/food/models/Friendship.java:110-115 | `created` and `updated` both become the current instant, and nothing else changes |
| Friendships.PreUpdate | src/main/java/com/sebastianfox/food/models/Friendship.java:105-108 | `updated` becomes the current instant; `created` and every other field are untouched |
| Friendships.ClosedStaysClosed | src/main/java/com/sebastianfox/food/models/Friendship.java:93-115 | no sequence of accept, close, persist and update operations reopens a closed edge |
| Friendships.RunKeepsEndpoints | src/main/java/com/sebastianfox/food/models/Friendship.java:93-115 | the flag and timestamp operations never change an edge's ends |
| Friendships.RunKeepsStampsOrdered | src/main/java/com/sebastianfox/food/models/Friendship.java:105-115 | when the clock never runs backwards, `created <= updated` holds after every operation |
| Friendships.CreatedFixedWithoutPersist | src/main/java/com/sebastianfox/food/models/Friendship.java:105-108 | without another persist, `created` never changes |
| Friendships.Apply | src/main/java/com/sebastianfox/food/models/Friendship.java:93-115 | edge `e` becomes the result of the matching setter or hook (`setAccepted`, `setOpen`, `prePersist`, `preUpdate`) applied to it, keeps both ends, and no other edge or user list changes |
| Friendships.ApplyPreservesValid | src/main/java/com/sebastianfox/food/models/Friendship.java:93-115 | flag and timestamp changes keep the back-reference invariant |
| UserRepository.IndexOf | src/main/java/com/sebastianfox/food/controller/UserController.java:447-461 | the repository lookup returns no id exactly when no user holds the value; otherwise it returns the first user that holds it |
| UserRepository.IndexOfUnique | src/main/java/com/sebastianfox/food/controller/UserController.java:447-461 | in a table with unique names and emails, looking up a user's own name or email returns that user's id |
| UserRepository.FindById | src/main/java/com/sebastianfox/food/controller/UserController.java:100 | a user is found exactly when the id is in use, and it is the user stored under that id |
| UserRepository.FindByUserName | src/main/java/com/sebastianfox/food/controller/UserController.java:457-461 | null exactly when no stored user has the name; otherwise a stored user with that name |
| UserRepository.FindByEmail | src/main/java/com/sebastianfox/food/controller/UserController.java:447-451 | null exactly when no stored user has the email; otherwise a stored user with that email |
| UserController.IsEmailAvailable | src/main/java/com/sebastianfox/food/controller/UserController.java:428-432 | true exactly when no stored user has the email |
| UserController.IsUserNameAvailable | src/main/java/com/sebastianfox/food/controller/UserController.java:438-442 | true exactly when no stored user has the name |
| UserController.Authenticate | src/main/java/com/sebastianfox/food/controller/UserController.java:64-87 | returns UNAUTHORIZED or OK, never changes the table, and has a body exactly on OK; an unknown email gives UNAUTHORIZED; OK carries a stored user with that email whose salt and hash accept the password |
| UserController.AuthenticateChecksTheOwner | src/main/java/com/sebastianfox/food/controller/UserController.java:67-86 | with unique emails, login with a user's email succeeds exactly when the password check accepts that user's credentials, and it returns that user |
| UserController.ReloadUser | src/main/java/com/sebastianfox/food/controller/UserController.java:96-116 | NOT_FOUND exactly when the id is not in use, otherwise OK with that user; the table is unchanged |
| UserController.UpdateUser | src/main/java/com/sebastianfox/food/controller/UserController.java:125-162 | NOT_FOUND with the table unchanged when the app user or its id is missing or the id is not in use; otherwise OK, only that id's record becomes the merge of the stored user and the app user, and it is returned |
| UserController.UpdateUserUniqueIff | src/main/java/com/sebastianfox/food/controller/UserController.java:142-154 | no availability check guards the save: with unique names and emails before an OK update, they stay unique exactly when no other user holds the merged record's name or email |
| UserController.UpdateUserCanDuplicateEmail | src/main/java/com/sebastianfox/food/controller/UserController.java:152-154 | a concrete unique table and merge for which an OK update leaves two users with the same email |
| UserController.CheckUsernameAvailability | src/main/java/com/sebastianfox/food/controller/UserController.java:170-182 | as written: CONFLICT exactly when no user has the name, OK exactly when one does |
| UserController.CheckMail | src/main/java/com/sebastianfox/food/controller/UserController.java:190-202 | as written: CONFLICT exactly when no user has the email, OK exactly when one does |
| UserController.CheckUsernameAvailabilityIntended | src/main/java/com/sebastianfox/food/controller/UserController.java:173-181 | as the comments describe: CONFLICT exactly when the name is in use, OK exactly when it is free |
| UserController.CheckMailIntended | src/main/java/com/sebastianfox/food/controller/UserController.java:193-201 | as the comments describe: CONFLICT exactly when the email is in use, OK exactly when it is free |
| UserController.AvailabilityChecksInverted | src/main/java/com/sebastianfox/food/controller/UserController.java:170-202 | on an empty table the checks as written answer CONFLICT for a free name and a free email, while the intended checks answer OK |
| UserController.AvailabilityChecksAlwaysOpposite | src/main/java/com/sebastianfox/food/controller/UserController.java:175-195 | on every table and input, the checks as written answer OK exactly when the intended ones answer CONFLICT |
| UserController.RegisterUser | src/main/java/com/sebastianfox/food/controller/UserController.java:211-241 | CONFLICT with the table unchanged exactly when the name or the email is taken; otherwise CREATED, the table grows by exactly the created user at the end, and that user is returned |
| UserController.RegisterUserPreservesUnique | src/main/java/com/sebastianfox/food/controller/UserController.java:221-233 | if names and emails are unique before a registration, they stay unique after it, provided `createUser` keeps the given name and email |
| UserController.ReloadAfterRegister | src/main/java/com/sebastianfox/food/controller/UserController.java:232-233 | after a CREATED registration, reloading the next free id answers OK with the registered user |
| UserController.FindByUsername | src/main/java/com/sebastianfox/food/controller/UserController.java:288-315 | BAD_REQUEST with no body exactly when no user has the name; otherwise OK with a stored user of that name; the table is unchanged |
| UserController.FindByMail | src/main/java/com/sebastianfox/food/controller/UserController.java:323-350 | BAD_REQUEST with no body exactly when no user has the email; otherwise OK with a stored user of that email; the table is unchanged |
| UserController.FindReturnsTheOwner | src/main/java/com/sebastianfox/food/controller/UserController.java:297-343 | with unique names and emails, looking up a user's name or email returns exactly that user |
| UserController.UpdateUserEmail | src/main/java/com/sebastianfox/food/controller/UserController.java:469-514 | CONFLICT with the table unchanged exactly when the email is in use, with the stored user (or null) in the body; if the email is free but the id is not in use, the call throws (ServerError); otherwise OK, and only that user's email changes |
| UserController.UpdateUserEmailOwnEmailConflicts | src/main/java/com/sebastianfox/food/controller/UserController.java:488 | asking for one's own current email gives CONFLICT and leaves the table unchanged |
| UserController.UpdateUserEmailPreservesUnique | src/main/java/com/sebastianfox/food/controller/UserController.java:487-494 | an email change keeps names and emails unique |
| UserController.FindByMailAfterEmailChange | src/main/java/com/sebastianfox/food/controller/UserController.java:488-494 | with unique emails, after a successful email change, looking up the new email returns the changed user |
| UserController.UpdateUserEmailFailsOnMissingUser | src/main/java/com/sebastianfox/food/controller/UserController.java:484-491 | on an empty table, id 0 with a free email throws instead of answering |
| UserController.UpdateUserEmailChecked | src/main/java/com/sebastianfox/food/controller/UserController.java:484-513 | with a missing-user guard: never throws; NOT_FOUND exactly when the id is not in use; CONFLICT exactly when the user exists and the email is taken; otherwise only that user's email changes |
| UserController.UpdateUserEmailCheckedAgrees | src/main/java/com/sebastianfox/food/controller/UserController.java:484-513 | for an existing user the guarded endpoint answers exactly as the original |
| UserController.RegisterThenLoginScenario | src/main/java/com/sebastianfox/food/controller/UserController.java:211-241 | registering alice on an empty table gives CREATED; registering alice again gives CONFLICT; her password logs in and a wrong one gives UNAUTHORIZED |

## Left out

- Friendship persistence: JPA mapping, the database `id`, getters, and `setUpdated`/`setCreated` are not modelled. An edge keeps its `id` field but nothing assigns it.
- LabelText `prePersist`/`preUpdate`: not modelled. They have the same shape as the `Friendship` hooks.
- Null request fields and null users: JSON may leave a field null. A null `language` in `setTextByLanguage` and a null password in `authenticate` when the user exists throw a NullPointerException. A null id in `reloadUser` and `updateUserEmail` is handed to `userRepository.findById`, whose behaviour on null is not part of this model. A null user passed to `Friendship(User,User)`, `setFriend1` or `setFriend2` throws when its list is read; `setFriend1(null)` and `setFriend2(null)` first store the null end. Strings, ids and users are always present in the model.
- Lookups with several matching users: a repository method returning one `User` throws when several rows match, but the model returns the first match. Such a table can be reached: `updateUser` saves without an availability check, so it can give two users the same name or email (`UpdateUserCanDuplicateEmail`). On such a table, a lookup of the shared name or email answers differently from the source in `Authenticate`, `FindByUsername`, `FindByMail`, `RegisterUser`, `UpdateUserEmail`, `CheckUsernameAvailability` and `CheckMail`: the source fails with an exception there. The lemmas that keep or use uniqueness (`RegisterUserPreservesUnique`, `UpdateUserEmailPreservesUnique`, `UpdateUserUniqueIff`, `AuthenticateChecksTheOwner`, `FindReturnsTheOwner`, `FindByMailAfterEmailChange`, `IndexOfUnique`) assume `Unique` of the table they start from.
- `createAndAcceptFriendRequest` and `declineAndDeleteFriendship`: their logic lives in `User.createAndAcceptFriendship` and `User.declineAndDeleteFriendship`. The `User` class is not part of this model. The pending/accepted/removed lifecycle and the derived friend set are therefore not modelled.
- `User.getFriendshipsFriend1`/`getFriendshipsFriend2` and `User.addFriendshipFriend1`/`addFriendshipFriend2`: the `User` class is not part of this model. The getters are modelled as returning the user's own ordered list. The adders are modelled as appending the edge at the end of that list and changing nothing else. `Register`, `NewFriendship`, `SetFriend1`, `SetFriend2` and every lemma about the lists rest on this reading.
- Password hashing and salt generation: `Authenticator` is not part of this model, and it is cryptographic. The password check is an uninterpreted `PasswordCheck`.
- `facebookLogin`: it depends on `Invitation` and its repository, which are not part of this model.
- `testEventGetter` and `createTestData`: test scaffolding and console output.
- JSON serialisation (`ObjectMapper`) and request mapping: statuses are collapsed into `Status`. An uncaught exception is `ServerError`.
- `java.util.Date`: instants are `nat` values passed in.
- Locale-dependent `toUpperCase`: only ASCII letters are upper-cased.
- `UserEventRepository`: an interface without logic.
- `userRepository.save`: modelled as never failing. Unique constraints the database may put on user names or emails are not part of this model, since the `User` mapping is not part of it either; `UpdateUserCanDuplicateEmail` also assumes a merge that copies the app's email.
- Transactions and concurrent requests: each endpoint is one atomic transition.

## Findings

| source | as written | input that shows it | evidently intended | confidence | as-written member | corrected member |
|---|---|---|---|---|---|---|
| src/main/java/com/sebastianfox/food/controller/UserController.java:175-181 | `checkUsernameAvailability` answers CONFLICT when `isUserNameAvailable` is true, i.e. when the name is free | empty table, username "alice": CONFLICT | CONFLICT when the name exists, OK when it is available, as the comments at lines 173 and 179 say | high, not executed | UserController.CheckUsernameAvailability, UserController.AvailabilityChecksInverted | UserController.CheckUsernameAvailabilityIntended |
| src/main/java/com/sebastianfox/food/controller/UserController.java:195-201 | `checkMail` answers CONFLICT when `isEmailAvailable` is true, i.e. when the email is free | empty table, email "alice@x.com": CONFLICT | CONFLICT when the email exists, OK when it is available, as the comment at line 193 says | high, not executed | UserController.CheckMail, UserController.AvailabilityChecksInverted | UserController.CheckMailIntended |
| src/main/java/com/sebastianfox/food/controller/UserController.java:485-491 | `updateUserEmail` never checks `dbUser` for null, so with a free email `dbUser.setEmail` throws for an unknown id | empty table, id 0, email "alice@x.com": NullPointerException | NOT_FOUND for an unknown user, as `updateUser` answers at lines 145-150 | medium, not executed | UserController.UpdateUserEmail, UserController.UpdateUserEmailFailsOnMissingUser | UserController.UpdateUserEmailChecked |

The model follows the code. Authentication reports an unknown email and a
wrong password identically (UNAUTHORIZED with an empty body). Asking to change
one's email to the email one already has is refused with CONFLICT.
`updateUser` saves the merged record without checking that its name and email
are free, so it can break uniqueness (`UpdateUserCanDuplicateEmail`).
