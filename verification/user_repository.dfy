/**
  The user table behind `UserRepository`, as an immutable value. Users are kept
  in insertion order and a user's id is its position, so every lookup is the
  first match in that order and a newly saved user gets an id nobody holds.
 */
module UserRepository {
  import opened Maybe

  type UserId = nat
  type Bytes = seq<bv8>

  /** The stored user fields the account logic reads or writes. */
  datatype User = User(userName: string, email: string, salt: Bytes, password: Bytes)

  type Store = seq<User>

  /** The two columns the repository can be searched by. */
  datatype Column = UserNameColumn | EmailColumn

  function Get(u: User, c: Column): string {
    match c
    case UserNameColumn => u.userName
    case EmailColumn => u.email
  }

  /** Some stored user has `v` in column `c`. */
  predicate Taken(s: Store, c: Column, v: string) {
    exists i :: 0 <= i < |s| && Get(s[i], c) == v
  }

  /** Usernames are pairwise distinct, and so are emails. */
  predicate Unique(s: Store) {
    forall i, j :: 0 <= i < j < |s| ==> s[i].userName != s[j].userName && s[i].email != s[j].email
  }

  /** The id of the first user holding `v` in column `c`, or `None` when nobody does. */
  function IndexOf(s: Store, c: Column, v: string): (r: Option<UserId>)
    ensures r.None? <==> !Taken(s, c, v)
    ensures r.Some? ==> r.value < |s| && Get(s[r.value], c) == v
    ensures r.Some? ==> forall j :: 0 <= j < r.value ==> Get(s[j], c) != v
    decreases |s|
  {
    if |s| == 0 then None
    else if Get(s[0], c) == v then Some(0)
    else
      match IndexOf(s[1..], c, v)
      case None => None
      case Some(k) => Some(k + 1)
  }

  /** With unique columns, the first match is the only match. */
  lemma IndexOfUnique(s: Store, c: Column, i: nat)
    requires Unique(s) && i < |s|
    ensures IndexOf(s, c, Get(s[i], c)) == Some(i)
  {
  }

  function FindById(s: Store, id: UserId): (r: Option<User>)
    ensures r.Some? <==> id < |s|
    ensures r.Some? ==> r.value == s[id]
  {
    if id < |s| then Some(s[id]) else None
  }

  /** `findByUserName`: the user with that name, or `null`. */
  function FindByUserName(s: Store, userName: string): (r: Option<User>)
    ensures r.None? <==> !Taken(s, UserNameColumn, userName)
    ensures r.Some? ==> r.value in s && r.value.userName == userName
  {
    match IndexOf(s, UserNameColumn, userName)
    case None => None
    case Some(i) => Some(s[i])
  }

  /** `findByEmail`: the user with that email, or `null`. */
  function FindByEmail(s: Store, email: string): (r: Option<User>)
    ensures r.None? <==> !Taken(s, EmailColumn, email)
    ensures r.Some? ==> r.value in s && r.value.email == email
  {
    match IndexOf(s, EmailColumn, email)
    case None => None
    case Some(i) => Some(s[i])
  }
}
