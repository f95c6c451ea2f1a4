/**
 * The routing core of the chat server: three in-memory maps and one method
 * per socket event. Each method runs to completion (the event loop
 * serialises them), updates the maps in place and returns the emits it
 * makes, in order, as deliveries. Fresh ids and the current time, which the
 * server takes from a uuid generator and the clock, are parameters.
 */
module Server {
  import opened Strings
  import opened Conversation
  import opened Model

  class ChatServer {
    /** socket id -> profile */
    var users: map<Handle, User>
    /** conversation id -> private log */
    var privateMessages: map<string, seq<PrivateMessage>>
    /** group id -> group record */
    var groups: map<GroupId, Group>

    ghost predicate Valid()
      reads this
    {
      UsersValid(users) && GroupsValid(groups)
    }

    constructor ()
      ensures Valid()
      ensures users == map[] && privateMessages == map[] && groups == map[]
    {
      users := map[];
      privateMessages := map[];
      groups := map[];
    }

    /** The profile whose name matches `username` ignoring case, if any. */
    method FindByName(username: string) returns (found: Option<Handle>)
      ensures found.Some? ==> found.value in users && SameName(users[found.value].username, username)
      ensures found.None? ==> !NameTaken(users, username)
    {
      var keys := users.Keys;
      while keys != {}
        invariant keys <= users.Keys
        invariant forall k :: k in users && k !in keys ==> !SameName(users[k].username, username)
        decreases keys
      {
        var k :| k in keys;
        if SameName(users[k].username, username) {
          return Some(k);
        }
        keys := keys - {k};
      }
      return None;
    }

    /** register: take over a profile with the same name, or store a fresh one. */
    method Register(socket: Handle, username: string, now: Timestamp) returns (out: seq<Delivery>)
      requires Valid()
      modifies this
      ensures Valid()
      ensures users == Registered(old(users), socket, username, now)
      ensures privateMessages == old(privateMessages) && groups == old(groups)
      ensures out == [Delivery(Everyone, UserList(users.Values)), Delivery(Rooms({socket}), GroupList(groups.Values))]
    {
      ghost var before := users;
      ghost var spec := Registered(users, socket, username, now);
      var found := FindByName(username);
      match found {
        case Some(k) =>
          var existing := users[k];
          users := users - {k};
          users := users[socket := existing.(id := socket)];
          forall j | j in before && SameName(before[j].username, username) ensures j == k {
            assert SameName(before[j].username, before[k].username);
          }
        case None =>
          users := users[socket := User(socket, username, now)];
      }
      assert users.Keys == spec.Keys;
      out := [Delivery(Everyone, UserList(users.Values)), Delivery(Rooms({socket}), GroupList(groups.Values))];
    }

    /** private-message: dropped unless both ends are registered and distinct. */
    method SendPrivateMessage(socket: Handle, to: Handle, content: string, id: MessageId, now: Timestamp)
      returns (out: seq<Delivery>)
      requires Valid()
      modifies this
      ensures Valid()
      ensures users == old(users) && groups == old(groups)
      ensures !(socket in users && to in users && socket != to) ==>
        privateMessages == old(privateMessages) && out == []
      ensures socket in users && to in users && socket != to ==>
        var key := ConversationId(socket, to);
        var msg := PrivateMessage(id, socket, to, content, now);
        && key in privateMessages
        && privateMessages == old(privateMessages)[key := LogOf(old(privateMessages), key) + [msg]]
        && out == [Delivery(Rooms({socket, to}), PrivateMessageEvent(msg))]
    {
      if socket !in users || to !in users || socket == to {
        return [];
      }
      var key := ConversationId(socket, to);
      var msg := PrivateMessage(id, socket, to, content, now);
      if key !in privateMessages {
        privateMessages := privateMessages[key := []];
      }
      privateMessages := privateMessages[key := privateMessages[key] + [msg]];
      out := [Delivery(Rooms({socket, to}), PrivateMessageEvent(msg))];
    }

    /** get-private-history: the whole log with `withId`, empty when there is none. */
    method GetPrivateHistory(socket: Handle, withId: Handle) returns (out: seq<Delivery>)
      ensures out == [Delivery(Rooms({socket}), PrivateHistory(withId, LogOf(privateMessages, ConversationId(socket, withId))))]
      ensures ConversationId(socket, withId) !in privateMessages ==> out[0].event.messages == []
    {
      var key := ConversationId(socket, withId);
      var messages := if key in privateMessages then privateMessages[key] else [];
      out := [Delivery(Rooms({socket}), PrivateHistory(withId, messages))];
    }

    /** create-group: store a new group whose first member is its creator, then broadcast the roster. */
    method CreateGroup(socket: Handle, name: string, members: seq<Handle>, groupId: GroupId, now: Timestamp)
      returns (out: seq<Delivery>)
      requires Valid()
      modifies this
      ensures Valid()
      ensures users == old(users) && privateMessages == old(privateMessages)
      ensures groups == old(groups)[groupId := Group(groupId, name, socket, now, [socket] + members, [])]
      ensures groupId !in old(groups) ==> groups.Keys == old(groups).Keys + {groupId}
      ensures out == [Delivery(Everyone, GroupList(groups.Values))]
    {
      var group := Group(groupId, name, socket, now, [socket] + members, []);
      groups := groups[groupId := group];
      out := [Delivery(Everyone, GroupList(groups.Values))];
    }

    /** group-message: a member's post is appended to that group and sent to all its members. */
    method SendGroupMessage(socket: Handle, groupId: GroupId, content: string, id: MessageId, now: Timestamp)
      returns (out: seq<Delivery>)
      requires Valid()
      modifies this
      ensures Valid()
      ensures users == old(users) && privateMessages == old(privateMessages)
      ensures !IsMember(old(groups), groupId, socket) ==> groups == old(groups) && out == []
      ensures IsMember(old(groups), groupId, socket) ==>
        var g := old(groups)[groupId];
        var msg := GroupMessage(id, groupId, socket, content, now);
        && groups == old(groups)[groupId := g.(messages := g.messages + [msg])]
        && out == [Delivery(Rooms(set m | m in g.members), GroupMessageEvent(msg))]
        && socket in Recipients(out)
    {
      if groupId !in groups || socket !in groups[groupId].members {
        return [];
      }
      var group := groups[groupId];
      var msg := GroupMessage(id, groupId, socket, content, now);
      groups := groups[groupId := group.(messages := group.messages + [msg])];
      out := [Delivery(Rooms(set m | m in group.members), GroupMessageEvent(msg))];
      assert socket in out[0].target.handles;
    }

    /** get-group-history: the group's log, sent only to a current member. */
    method GetGroupHistory(socket: Handle, groupId: GroupId) returns (out: seq<Delivery>)
      ensures !IsMember(groups, groupId, socket) ==> out == []
      ensures IsMember(groups, groupId, socket) ==>
        out == [Delivery(Rooms({socket}), GroupHistory(groupId, groups[groupId].messages))]
    {
      var group := if groupId in groups then Some(groups[groupId]) else None;
      if group.Some? && socket in group.value.members {
        out := [Delivery(Rooms({socket}), GroupHistory(groupId, group.value.messages))];
      } else {
        out := [];
      }
    }

    /** typing: relayed to `to` unless it is the sender itself. */
    method Typing(socket: Handle, to: Handle, isTyping: bool) returns (out: seq<Delivery>)
      ensures to == socket ==> out == []
      ensures to != socket ==> out == [Delivery(Rooms({to}), UserTyping(socket, isTyping))]
      ensures Recipients(out) == if to == socket then {} else {to}
    {
      if to != socket {
        out := [Delivery(Rooms({to}), UserTyping(socket, isTyping))];
        assert to in out[0].target.handles;
      } else {
        out := [];
      }
    }

    /** group-typing: one notice per member entry other than the sender, in member order. */
    method GroupTyping(socket: Handle, groupId: GroupId, isTyping: bool) returns (out: seq<Delivery>)
      ensures !IsMember(groups, groupId, socket) ==> out == []
      ensures IsMember(groups, groupId, socket) ==>
        var others := Without(groups[groupId].members, socket);
        && |out| == |others|
        && (forall j :: 0 <= j < |out| ==>
              out[j] == Delivery(Rooms({others[j]}), UserGroupTyping(groupId, socket, isTyping)))
        && Recipients(out) == set m | m in groups[groupId].members && m != socket
    {
      if groupId !in groups || socket !in groups[groupId].members {
        return [];
      }
      var members := groups[groupId].members;
      var event := UserGroupTyping(groupId, socket, isTyping);
      out := [];
      ghost var others: seq<Handle> := [];
      var i := 0;
      while i < |members|
        invariant 0 <= i <= |members|
        invariant others == Without(members[..i], socket)
        invariant |out| == |others|
        invariant forall j :: 0 <= j < |out| ==> out[j] == Delivery(Rooms({others[j]}), event)
      {
        assert members[..i + 1] == members[..i] + [members[i]];
        WithoutSnoc(members[..i], members[i], socket);
        if members[i] != socket {
          out := out + [Delivery(Rooms({members[i]}), event)];
          others := others + [members[i]];
        }
        i := i + 1;
      }
      assert members[..i] == members;
      RecipientsOfSingles(out, others);
      assert (set m | m in others) == set m | m in members && m != socket;
    }

    /** disconnect: a registered handle is removed and evicted from every group. */
    method Disconnect(socket: Handle) returns (out: seq<Delivery>)
      requires Valid()
      modifies this
      ensures Valid()
      ensures privateMessages == old(privateMessages)
      ensures socket !in old(users) ==> users == old(users) && groups == old(groups) && out == []
      ensures socket in old(users) ==>
        && users == old(users) - {socket}
        && groups == Evict(old(groups), socket)
        && out == [Delivery(Everyone, UserList(users.Values)), Delivery(Everyone, GroupList(groups.Values))]
    {
      if socket !in users {
        return [];
      }
      users := users - {socket};
      ghost var before := groups;
      var pending := groups.Keys;
      while pending != {}
        invariant users == old(users) - {socket} && privateMessages == old(privateMessages)
        invariant pending <= before.Keys && groups.Keys <= before.Keys
        invariant forall g :: g in pending ==> g in groups && groups[g] == before[g]
        invariant forall g :: g in before && g !in pending ==> EvictedAt(before, socket, groups, g)
        decreases pending
      {
        var g :| g in pending;
        ghost var prev := groups;
        var group := groups[g];
        var members := Without(group.members, socket);
        if members == [] {
          groups := groups - {g};
        } else {
          groups := groups[g := group.(members := members)];
        }
        pending := pending - {g};
        forall x | x in before && x !in pending ensures EvictedAt(before, socket, groups, x) {
          if x != g {
            assert EvictedAt(before, socket, prev, x);
          }
        }
      }
      EvictByEntries(before, socket, groups);
      out := [Delivery(Everyone, UserList(users.Values)), Delivery(Everyone, GroupList(groups.Values))];
    }
  }

  /** Either side of a conversation reads the same private log. */
  lemma HistorySymmetric(logs: map<string, seq<PrivateMessage>>, a: Handle, b: Handle)
    ensures LogOf(logs, ConversationId(a, b)) == LogOf(logs, ConversationId(b, a))
  {
    ConversationIdSymmetric(a, b);
  }

  /**
   * After `a` sends `m` to `b`, the history `b` reads with `a` is the old one
   * followed by `m`, and every other conversation reads as before.
   */
  lemma SentMessageVisibleToPeer(logs: map<string, seq<PrivateMessage>>, a: Handle, b: Handle, m: PrivateMessage)
    ensures var key := ConversationId(a, b);
      var after := logs[key := LogOf(logs, key) + [m]];
      && LogOf(after, ConversationId(b, a)) == LogOf(logs, ConversationId(b, a)) + [m]
      && forall k :: k != key ==> LogOf(after, k) == LogOf(logs, k)
  {
    ConversationIdSymmetric(a, b);
  }

  /** Registering "Alice" and then "alice" from another socket is a takeover. */
  method TakeoverScenario(s1: Handle, s2: Handle, t1: Timestamp, t2: Timestamp)
    requires s1 != s2
  {
    var server := new ChatServer();
    var out := server.Register(s1, "Alice", t1);
    assert server.users[s1] == User(s1, "Alice", t1);
    assert SameName(server.users[s1].username, "alice");
    out := server.Register(s2, "alice", t2);
    assert server.users[s2] == User(s2, "Alice", t1);
    assert s1 !in server.users;
  }

  /** A message to oneself is dropped; one to a peer reaches both ends and the peer's history. */
  method MessagingScenario(s1: Handle, s2: Handle, t: Timestamp)
    requires s1 != s2
  {
    var server := new ChatServer();
    var out := server.Register(s1, "x", t);
    assert Lower("x")[0] != Lower("y")[0];
    out := server.Register(s2, "y", t);
    assert s1 in server.users && s2 in server.users;
    out := server.SendPrivateMessage(s1, s1, "hi", "m0", t);
    assert out == [];
    out := server.SendPrivateMessage(s1, s2, "hi", "m1", t);
    assert Recipients(out) == {s1, s2} by {
      assert s1 in out[0].target.handles && s2 in out[0].target.handles;
    }
    var history := server.GetPrivateHistory(s2, s1);
    SentMessageVisibleToPeer(map[], s1, s2, PrivateMessage("m1", s1, s2, "hi", t));
    assert history[0].event.messages == [PrivateMessage("m1", s1, s2, "hi", t)];
  }

  /** A group whose only member disconnects is gone afterwards. */
  method SoleMemberScenario(s1: Handle, s2: Handle, t: Timestamp, gid: GroupId)
    requires s1 != s2
  {
    var server := new ChatServer();
    var out := server.Register(s1, "x", t);
    out := server.CreateGroup(s1, "solo", [], gid, t);
    out := server.Disconnect(s1);
    assert gid !in server.groups;
    out := server.GetGroupHistory(s2, gid);
    assert out == [];
  }
}
