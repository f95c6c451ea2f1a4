/**
 * The records the chat server keeps in memory, the deliveries its handlers
 * emit, the invariants of its three maps, and the pure specifications of the
 * two updates that are more than a single map write: registering a name and
 * evicting a disconnected handle from every group.
 */
module Model {
  import opened Strings

  datatype Option<T> = None | Some(value: T)

  /** A transport-assigned connection handle (a socket id). */
  type Handle = string
  type GroupId = string
  type MessageId = string
  /** The moment a `Date` records; the handlers receive it as a parameter. */
  type Timestamp = int

  datatype User = User(id: Handle, username: string, joinedAt: Timestamp)

  datatype PrivateMessage =
    PrivateMessage(id: MessageId, from: Handle, to: Handle, content: string, timestamp: Timestamp)

  datatype GroupMessage =
    GroupMessage(id: MessageId, groupId: GroupId, from: Handle, content: string, timestamp: Timestamp)

  datatype Group = Group(
    id: GroupId,
    name: string,
    createdBy: Handle,
    createdAt: Timestamp,
    members: seq<Handle>,
    messages: seq<GroupMessage>)

  /** Who an emit reaches: every connection, or the sockets in a set of rooms. */
  datatype Target = Everyone | Rooms(handles: set<Handle>)

  /** The outbound events, one constructor per event name. */
  datatype Outbound =
    | UserList(users: set<User>)
    | GroupList(groups: set<Group>)
    | PrivateMessageEvent(message: PrivateMessage)
    | PrivateHistory(withId: Handle, messages: seq<PrivateMessage>)
    | GroupMessageEvent(groupMessage: GroupMessage)
    | GroupHistory(groupId: GroupId, history: seq<GroupMessage>)
    | UserTyping(from: Handle, isTyping: bool)
    | UserGroupTyping(groupId: GroupId, from: Handle, isTyping: bool)

  datatype Delivery = Delivery(target: Target, event: Outbound)

  /** Every handle an individual (non-broadcast) delivery in `ds` is addressed to. */
  function Recipients(ds: seq<Delivery>): set<Handle> {
    set i, h | 0 <= i < |ds| && ds[i].target.Rooms? && h in ds[i].target.handles :: h
  }

  /** Deliveries addressed to one handle each, in the order of `hs`, reach exactly the handles of `hs`. */
  lemma RecipientsOfSingles(ds: seq<Delivery>, hs: seq<Handle>)
    requires |ds| == |hs|
    requires forall j :: 0 <= j < |ds| ==> ds[j].target == Rooms({hs[j]})
    ensures Recipients(ds) == set h | h in hs
  {
  }

  // ---- invariants of the three maps ----

  predicate KeysAreIds(users: map<Handle, User>) {
    forall k :: k in users ==> users[k].id == k
  }

  predicate NamesUnique(users: map<Handle, User>) {
    forall k1, k2 :: k1 in users && k2 in users && k1 != k2 ==>
      !SameName(users[k1].username, users[k2].username)
  }

  predicate UsersValid(users: map<Handle, User>) {
    KeysAreIds(users) && NamesUnique(users)
  }

  predicate GroupsValid(groups: map<GroupId, Group>) {
    forall g :: g in groups ==> groups[g].id == g && groups[g].members != []
  }

  // ---- lookups ----

  predicate NameTaken(users: map<Handle, User>, name: string) {
    exists k :: k in users && SameName(users[k].username, name)
  }

  /** A missing log reads as the empty one. */
  function LogOf(logs: map<string, seq<PrivateMessage>>, key: string): seq<PrivateMessage> {
    if key in logs then logs[key] else []
  }

  predicate IsMember(groups: map<GroupId, Group>, groupId: GroupId, h: Handle) {
    groupId in groups && h in groups[groupId].members
  }

  // ---- register ----

  /**
   * The users map after `h` registers `name`: a case-insensitive match is
   * taken over (re-keyed to `h`, its name and join time kept), otherwise a
   * fresh profile is stored at `h`.
   */
  ghost function Registered(users: map<Handle, User>, h: Handle, name: string, now: Timestamp): (r: map<Handle, User>)
    requires UsersValid(users)
    ensures UsersValid(r)
    ensures h in r && SameName(r[h].username, name)
    ensures forall k :: k in r && SameName(r[k].username, name) ==> k == h
    ensures !NameTaken(users, name) ==> r[h] == User(h, name, now)
    ensures forall k :: k in users && SameName(users[k].username, name) ==>
      r[h] == users[k].(id := h) && (k != h ==> k !in r)
    ensures forall k :: k in users && k != h && !SameName(users[k].username, name) ==>
      k in r && r[k] == users[k]
    ensures r.Keys <= users.Keys + {h}
  {
    if NameTaken(users, name) then
      var k :| k in users && SameName(users[k].username, name);
      (users - {k})[h := users[k].(id := h)]
    else
      users[h := User(h, name, now)]
  }

  // ---- disconnect ----

  /** `s` with every occurrence of `h` filtered out, the rest in order. */
  function Without(s: seq<Handle>, h: Handle): (r: seq<Handle>)
    ensures forall x :: x in r <==> x in s && x != h
    ensures |r| <= |s|
  {
    if s == [] then []
    else
      var init, last := s[..|s| - 1], s[|s| - 1];
      assert s == init + [last];
      if last == h then Without(init, h) else Without(init, h) + [last]
  }

  /** Filtering removes every copy of `h` and keeps every other element as often as it occurs. */
  lemma {:induction false} WithoutCounts(s: seq<Handle>, h: Handle)
    ensures multiset(Without(s, h)) == multiset(s)[h := 0]
  {
    if s != [] {
      var init, last := s[..|s| - 1], s[|s| - 1];
      assert s == init + [last];
      WithoutCounts(init, h);
    }
  }

  /** Filtering distributes over appending one element. */
  lemma WithoutSnoc(s: seq<Handle>, x: Handle, h: Handle)
    ensures Without(s + [x], h) == Without(s, h) + (if x == h then [] else [x])
  {
  }

  /** Filtering `h` out leaves something exactly when some element differs from `h`. */
  lemma WithoutNonEmpty(s: seq<Handle>, h: Handle)
    ensures Without(s, h) != [] <==> exists m :: m in s && m != h
  {
    if Without(s, h) != [] {
      assert Without(s, h)[0] in Without(s, h);
    }
  }

  /**
   * The groups after `h` leaves every one of them: a group with another
   * member survives with `h` filtered out of its members, a group that had
   * only `h` is deleted, nothing else about a group changes.
   */
  function Evict(groups: map<GroupId, Group>, h: Handle): (r: map<GroupId, Group>)
    ensures forall g :: g in r <==> g in groups && exists m :: m in groups[g].members && m != h
    ensures forall g :: g in r ==> h !in r[g].members && r[g].members != []
    ensures forall g :: g in r ==> multiset(r[g].members) == multiset(groups[g].members)[h := 0]
    ensures forall g :: g in r ==> r[g].(members := groups[g].members) == groups[g]
    ensures GroupsValid(groups) ==> GroupsValid(r)
  {
    assert forall g :: g in groups ==>
      && (Without(groups[g].members, h) != [] <==> exists m :: m in groups[g].members && m != h)
      && multiset(Without(groups[g].members, h)) == multiset(groups[g].members)[h := 0] by {
      forall g | g in groups
        ensures Without(groups[g].members, h) != [] <==> exists m :: m in groups[g].members && m != h
        ensures multiset(Without(groups[g].members, h)) == multiset(groups[g].members)[h := 0]
      {
        WithoutNonEmpty(groups[g].members, h);
        WithoutCounts(groups[g].members, h);
      }
    }
    map g | g in groups && Without(groups[g].members, h) != [] ::
      groups[g].(members := Without(groups[g].members, h))
  }

  /** `r` holds at `g` what evicting `h` from `groups` leaves there. */
  predicate EvictedAt(groups: map<GroupId, Group>, h: Handle, r: map<GroupId, Group>, g: GroupId)
    requires g in groups
  {
    var members := Without(groups[g].members, h);
    if members == [] then g !in r else g in r && r[g] == groups[g].(members := members)
  }

  /** A map that agrees with the eviction at every key of `groups`, and has no other key, is the eviction. */
  lemma EvictByEntries(groups: map<GroupId, Group>, h: Handle, r: map<GroupId, Group>)
    requires r.Keys <= groups.Keys
    requires forall g :: g in groups ==> EvictedAt(groups, h, r, g)
    ensures r == Evict(groups, h)
  {
    var e := Evict(groups, h);
    forall g | g in groups
      ensures g in r <==> g in e
      ensures g in r ==> r[g] == e[g]
    {
      assert EvictedAt(groups, h, r, g);
    }
    assert r.Keys == e.Keys;
  }
}
