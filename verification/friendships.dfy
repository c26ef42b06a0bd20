/**
  Friendship edges (`Friendship`) and the back-reference lists every user keeps
  of them (`User.friendshipsFriend1`, `User.friendshipsFriend2`).

  A `Friendship` object is identified by an `EdgeRef`, its object identity: Java's
  `contains` on these lists compares identities because `Friendship` does not
  override `equals`. The users' lists live in a store keyed by user id, so the
  back-reference invariant is a predicate over one immutable value.
 */
module Friendships {
  import opened Maybe
  import opened UserRepository

  type EdgeRef = nat
  /** A point in time as `new Date()` would read it; the clock is passed in. */
  type Instant = nat

  datatype Edge = Edge(
    id: Option<int>,
    friend1: Option<UserId>,
    friend2: Option<UserId>,
    accepted: bool,
    open: bool,
    updated: Option<Instant>,
    created: Option<Instant>)

  /** For each user, the list of edges registered with it. */
  type Lists = map<UserId, seq<EdgeRef>>

  datatype Graph = Graph(
    edges: map<EdgeRef, Edge>,
    friendships1: Lists,
    friendships2: Lists)

  /** A user's list; a user never touched yet has an empty one. */
  function Members(lists: Lists, u: UserId): seq<EdgeRef> {
    if u in lists then lists[u] else []
  }

  predicate NoDuplicates(s: seq<EdgeRef>) {
    forall i, j :: 0 <= i < j < |s| ==> s[i] != s[j]
  }

  /** A request neither accepted nor closed yet. */
  predicate IsPending(x: Edge) {
    !x.accepted && x.open
  }

  /** Every listed edge is a live object. */
  ghost predicate ListsKnown(g: Graph) {
    && (forall u, e :: e in Members(g.friendships1, u) ==> e in g.edges)
    && (forall u, e :: e in Members(g.friendships2, u) ==> e in g.edges)
  }

  /** No list holds an edge twice. */
  ghost predicate ListsDuplicateFree(g: Graph) {
    && (forall u :: NoDuplicates(Members(g.friendships1, u)))
    && (forall u :: NoDuplicates(Members(g.friendships2, u)))
  }

  /** Every edge is listed with its current endpoints. */
  ghost predicate EndpointsRegistered(g: Graph) {
    forall e :: e in g.edges ==>
      && (g.edges[e].friend1.Some? ==> e in Members(g.friendships1, g.edges[e].friend1.value))
      && (g.edges[e].friend2.Some? ==> e in Members(g.friendships2, g.edges[e].friend2.value))
  }

  ghost predicate Valid(g: Graph) {
    ListsKnown(g) && ListsDuplicateFree(g) && EndpointsRegistered(g)
  }

  /** The empty object graph satisfies the invariant, so the preservation lemmas apply from the start. */
  lemma EmptyGraphIsValid()
    ensures Valid(Graph(map[], map[], map[]))
  {
  }

  /**
    Adds `e` to `u`'s list unless the list already contains it (the `contains`
    guard in front of `addFriendshipFriend1` / `addFriendshipFriend2`).
   */
  function Register(lists: Lists, u: UserId, e: EdgeRef): (r: Lists)
    ensures e in Members(r, u)
    ensures forall v :: v != u ==> Members(r, v) == Members(lists, v)
    ensures Members(lists, u) <= Members(r, u)
    ensures forall f :: f in Members(r, u) ==> f in Members(lists, u) || f == e
    ensures NoDuplicates(Members(lists, u)) ==> NoDuplicates(Members(r, u))
  {
    if e in Members(lists, u) then lists else lists[u := Members(lists, u) + [e]]
  }

  /** Registering twice is registering once. */
  lemma RegisterIsIdempotent(lists: Lists, u: UserId, e: EdgeRef)
    ensures Register(Register(lists, u, e), u, e) == Register(lists, u, e)
  {
  }

  /** Registration never lists an edge twice: a duplicate-free list keeps exactly one copy of `e`. */
  lemma RegisterListsOnce(lists: Lists, u: UserId, e: EdgeRef)
    requires NoDuplicates(Members(lists, u))
    ensures multiset(Members(Register(lists, u, e), u))[e] == 1
  {
    var r := Members(Register(lists, u, e), u);
    assert NoDuplicates(r);
    NoDuplicatesCountsOnce(r, e);
  }

  lemma {:induction false} NoDuplicatesCountsOnce(s: seq<EdgeRef>, e: EdgeRef)
    requires NoDuplicates(s) && e in s
    ensures multiset(s)[e] == 1
  {
    if s[0] == e {
      assert e !in s[1..];
      assert s == [s[0]] + s[1..];
    } else {
      assert NoDuplicates(s[1..]);
      NoDuplicatesCountsOnce(s[1..], e);
      assert s == [s[0]] + s[1..];
    }
  }

  /** `new Friendship()`, the no-argument constructor used when loading from the database. */
  function BlankEdge(): (x: Edge)
    ensures IsPending(x)
    ensures x.friend1.None? && x.friend2.None? && x.id.None?
    ensures x.created.None? && x.updated.None?
  {
    Edge(None, None, None, false, true, None, None)
  }

  /**
    `new Friendship(friend1, friend2)`: a pending, open edge between the two
    users, listed with `friend1` as first and with `friend2` as second friend.
    `e` is the identity of the new object, so no edge holds it yet.
   */
  function NewFriendship(g: Graph, e: EdgeRef, friend1: UserId, friend2: UserId): (r: Graph)
    requires e !in g.edges
    ensures r.edges.Keys == g.edges.Keys + {e}
    ensures forall f :: f in g.edges ==> r.edges[f] == g.edges[f]
    ensures r.edges[e].friend1 == Some(friend1) && r.edges[e].friend2 == Some(friend2)
    ensures IsPending(r.edges[e]) && r.edges[e].id.None?
    ensures r.edges[e].created.None? && r.edges[e].updated.None?
    ensures e in Members(r.friendships1, friend1) && e in Members(r.friendships2, friend2)
    ensures forall v :: v != friend1 ==> Members(r.friendships1, v) == Members(g.friendships1, v)
    ensures forall v :: v != friend2 ==> Members(r.friendships2, v) == Members(g.friendships2, v)
  {
    var x := BlankEdge().(friend1 := Some(friend1), friend2 := Some(friend2));
    Graph(g.edges[e := x], Register(g.friendships1, friend1, e), Register(g.friendships2, friend2, e))
  }

  /** A new edge is appended to each endpoint's list exactly once, and the graph stays valid. */
  lemma NewFriendshipPreservesValid(g: Graph, e: EdgeRef, friend1: UserId, friend2: UserId)
    requires Valid(g) && e !in g.edges
    ensures Valid(NewFriendship(g, e, friend1, friend2))
    ensures Members(NewFriendship(g, e, friend1, friend2).friendships1, friend1)
         == Members(g.friendships1, friend1) + [e]
    ensures Members(NewFriendship(g, e, friend1, friend2).friendships2, friend2)
         == Members(g.friendships2, friend2) + [e]
  {
  }

  /**
    `setFriend1(u)`: points the edge's first end at `u` and lists it with `u`.
    The previous first friend keeps the edge in its list, and no second-friend
    list changes.
   */
  function SetFriend1(g: Graph, e: EdgeRef, u: UserId): (r: Graph)
    requires e in g.edges
    ensures r.edges.Keys == g.edges.Keys
    ensures r.edges[e].friend1 == Some(u)
    ensures r.edges[e].(friend1 := g.edges[e].friend1) == g.edges[e]
    ensures forall f :: f in g.edges && f != e ==> r.edges[f] == g.edges[f]
    ensures e in Members(r.friendships1, u)
    ensures Members(r.friendships1, u) ==
      if e in Members(g.friendships1, u) then Members(g.friendships1, u) else Members(g.friendships1, u) + [e]
    ensures forall v :: v != u ==> Members(r.friendships1, v) == Members(g.friendships1, v)
    ensures r.friendships2 == g.friendships2
  {
    Graph(g.edges[e := g.edges[e].(friend1 := Some(u))], Register(g.friendships1, u, e), g.friendships2)
  }

  /** `setFriend2(u)`, the mirror image of `SetFriend1`. */
  function SetFriend2(g: Graph, e: EdgeRef, u: UserId): (r: Graph)
    requires e in g.edges
    ensures r.edges.Keys == g.edges.Keys
    ensures r.edges[e].friend2 == Some(u)
    ensures r.edges[e].(friend2 := g.edges[e].friend2) == g.edges[e]
    ensures forall f :: f in g.edges && f != e ==> r.edges[f] == g.edges[f]
    ensures e in Members(r.friendships2, u)
    ensures Members(r.friendships2, u) ==
      if e in Members(g.friendships2, u) then Members(g.friendships2, u) else Members(g.friendships2, u) + [e]
    ensures forall v :: v != u ==> Members(r.friendships2, v) == Members(g.friendships2, v)
    ensures r.friendships1 == g.friendships1
  {
    Graph(g.edges[e := g.edges[e].(friend2 := Some(u))], g.friendships1, Register(g.friendships2, u, e))
  }

  lemma SetFriend1PreservesValid(g: Graph, e: EdgeRef, u: UserId)
    requires Valid(g) && e in g.edges
    ensures Valid(SetFriend1(g, e, u))
  {
  }

  lemma SetFriend2PreservesValid(g: Graph, e: EdgeRef, u: UserId)
    requires Valid(g) && e in g.edges
    ensures Valid(SetFriend2(g, e, u))
  {
  }

  /** Re-pointing an end to the same user a second time changes nothing more. */
  lemma SetFriendIsIdempotent(g: Graph, e: EdgeRef, u: UserId)
    requires e in g.edges
    ensures SetFriend1(SetFriend1(g, e, u), e, u) == SetFriend1(g, e, u)
    ensures SetFriend2(SetFriend2(g, e, u), e, u) == SetFriend2(g, e, u)
  {
  }

  /**
    Re-pointing leaves a stale back-reference: after `setFriend1(u)` the edge is
    listed with both its previous first friend and `u`.
   */
  lemma SetFriend1KeepsPreviousListing(g: Graph, e: EdgeRef, u: UserId)
    requires Valid(g) && e in g.edges
    requires g.edges[e].friend1.Some? && g.edges[e].friend1.value != u
    ensures var r := SetFriend1(g, e, u);
      e in Members(r.friendships1, g.edges[e].friend1.value) && e in Members(r.friendships1, u)
  {
  }

  /** `setAccepted(b)`: only the accepted flag changes. */
  function SetAccepted(x: Edge, b: bool): (r: Edge)
    ensures r.accepted == b
    ensures r.(accepted := x.accepted) == x
  {
    x.(accepted := b)
  }

  /** `setOpen()`: closes the edge, whatever its state; there is no way to reopen it. */
  function SetOpen(x: Edge): (r: Edge)
    ensures !r.open
    ensures r.(open := x.open) == x
  {
    x.(open := false)
  }

  /** `@PrePersist`: both timestamps become the current instant. */
  function PrePersist(x: Edge, now: Instant): (r: Edge)
    ensures r.created == Some(now) && r.updated == Some(now)
    ensures r.(created := x.created, updated := x.updated) == x
  {
    x.(created := Some(now), updated := Some(now))
  }

  /** `@PreUpdate`: only the update timestamp moves; `created` is untouched. */
  function PreUpdate(x: Edge, now: Instant): (r: Edge)
    ensures r.updated == Some(now) && r.created == x.created
    ensures r.(updated := x.updated) == x
  {
    x.(updated := Some(now))
  }

  /** Once created, an edge has been updated no earlier than it was created. */
  predicate StampsOrdered(x: Edge) {
    x.created.Some? ==> x.updated.Some? && x.created.value <= x.updated.value
  }

  /** The operations on an edge's own state, and the instant the clock reads for the hooks. */
  datatype EdgeOp = Accept(b: bool) | Close | Persist(now: Instant) | Update(now: Instant)

  function Step(x: Edge, op: EdgeOp): Edge {
    match op
    case Accept(b) => SetAccepted(x, b)
    case Close => SetOpen(x)
    case Persist(now) => PrePersist(x, now)
    case Update(now) => PreUpdate(x, now)
  }

  function Run(x: Edge, ops: seq<EdgeOp>): Edge
    decreases |ops|
  {
    if |ops| == 0 then x else Run(Step(x, ops[0]), ops[1..])
  }

  /** No sequence of edge operations reopens a closed edge. */
  lemma {:induction false} ClosedStaysClosed(x: Edge, ops: seq<EdgeOp>)
    requires !x.open
    ensures !Run(x, ops).open
    decreases |ops|
  {
    if |ops| > 0 {
      ClosedStaysClosed(Step(x, ops[0]), ops[1..]);
    }
  }

  /** Operations never touch the edge's endpoints. */
  lemma {:induction false} RunKeepsEndpoints(x: Edge, ops: seq<EdgeOp>)
    ensures Run(x, ops).friend1 == x.friend1 && Run(x, ops).friend2 == x.friend2
    decreases |ops|
  {
    if |ops| > 0 {
      RunKeepsEndpoints(Step(x, ops[0]), ops[1..]);
    }
  }

  /** A clock reading that never goes back before the edge's last timestamp. */
  predicate NotBefore(x: Edge, now: Instant) {
    (x.created.Some? ==> x.created.value <= now) && (x.updated.Some? ==> x.updated.value <= now)
  }

  ghost predicate ClockMonotone(x: Edge, ops: seq<EdgeOp>)
    decreases |ops|
  {
    |ops| > 0 ==>
      && (ops[0].Persist? || ops[0].Update? ==> NotBefore(x, ops[0].now))
      && ClockMonotone(Step(x, ops[0]), ops[1..])
  }

  /** With a clock that never runs backwards, `created <= updated` holds after every operation. */
  lemma {:induction false} RunKeepsStampsOrdered(x: Edge, ops: seq<EdgeOp>)
    requires StampsOrdered(x) && ClockMonotone(x, ops)
    ensures StampsOrdered(Run(x, ops))
    decreases |ops|
  {
    if |ops| > 0 {
      RunKeepsStampsOrdered(Step(x, ops[0]), ops[1..]);
    }
  }

  /** Without a further `@PrePersist`, `created` never changes. */
  lemma {:induction false} CreatedFixedWithoutPersist(x: Edge, ops: seq<EdgeOp>)
    requires forall i :: 0 <= i < |ops| ==> !ops[i].Persist?
    ensures Run(x, ops).created == x.created
    decreases |ops|
  {
    if |ops| > 0 {
      CreatedFixedWithoutPersist(Step(x, ops[0]), ops[1..]);
    }
  }

  /** Applies an edge operation to a live edge of the graph. */
  function Apply(g: Graph, e: EdgeRef, op: EdgeOp): (r: Graph)
    requires e in g.edges
    ensures r.edges.Keys == g.edges.Keys
    ensures r.edges[e] == Step(g.edges[e], op)
    ensures r.edges[e].friend1 == g.edges[e].friend1 && r.edges[e].friend2 == g.edges[e].friend2
    ensures r.friendships1 == g.friendships1 && r.friendships2 == g.friendships2
    ensures forall f :: f in g.edges && f != e ==> r.edges[f] == g.edges[f]
  {
    RunKeepsEndpoints(g.edges[e], [op]);
    g.(edges := g.edges[e := Step(g.edges[e], op)])
  }

  /** Flag and timestamp changes keep the back-reference invariant. */
  lemma ApplyPreservesValid(g: Graph, e: EdgeRef, op: EdgeOp)
    requires Valid(g) && e in g.edges
    ensures Valid(Apply(g, e, op))
  {
  }
}
