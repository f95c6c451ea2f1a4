# Chat server routing core, modelled in Dafny

This project models the in-memory routing core of a Socket.IO chat server (`server.js`). The server keeps three maps:

- `users`: socket id to profile `{id, username, joinedAt}`;
- `privateMessages`: conversation id to an ordered message log;
- `groups`: group id to `{id, name, createdBy, createdAt, members, messages}`.

Nine event handlers read and update these maps and emit events. The handlers are `register`, `private-message`, `get-private-history`, `create-group`, `group-message`, `get-group-history`, `typing`, `group-typing` and `disconnect`. The event loop runs each handler to completion, so the model is a sequence of atomic method calls on one object.

Files:

- `strings.dfy` (module `Strings`): the order used to sort two handles, as a strict total order. Also the lower-casing used to compare user names.
- `conversation.dfy` (module `Conversation`): `ConversationId`, the dash-joined sorted pair, with its symmetry and (non-)injectivity lemmas.
- `model.dfy` (module `Model`): the records and the delivery type. It also holds the invariants of the maps, and the pure specifications of registration (`Registered`), member filtering (`Without`) and the disconnect cascade (`Evict`).
- `server.dfy` (module `Server`): class `ChatServer` with the three maps as fields and one method per event. It also has lemmas relating the private-history handler to the message handler, and three client methods that replay a takeover, a private exchange and a sole-member disconnect on a fresh server.

Each handler method returns the emits it makes, in order, as a `seq<Delivery>`. A delivery pairs a `Target` with an `Outbound` event:

- The target is `Everyone` for `io.emit`. It is `Rooms(s)` for `socket.emit`, `io.to(x)`, `io.to(a).to(b)` and `io.to(list)`, where `s` is the set of socket ids addressed.
- `Outbound` has one constructor per outbound event name.

The state-changing methods keep the class invariant `Valid()`, which says:

- every profile's `id` equals its key;
- no two profiles have the same name after lower-casing;
- every group's `id` equals its key;
- every group has a non-empty member list.

Each state-changing method also states its complete new state, either directly or through one of the specification functions in `Model`. The read-only handlers (`GetPrivateHistory`, `GetGroupHistory`, `Typing`, `GroupTyping`) state their exact deliveries.

Two behaviours of the code that are easy to misread:

- `create-group` stores `[creator, ...members]` without removing duplicates, so the creator can appear twice (server.js:83).
- `group-typing` emits once per member entry other than the sender, in list order, so a duplicated member is notified twice (server.js:129-131).

## Model

| member | source | states |
|---|---|---|
| Strings.LexLess | server.js:20 | the comparison `sort()` applies to the handle pair: no string precedes itself, and a proper prefix precedes every extension of it |
| Strings.LexLessAsymmetric | server.js:20 | the comparison used to sort the handle pair never orders two strings both ways |
| Strings.LexLessTotal | server.js:20 | any two different handles are ordered one way or the other |
| Strings.LexLessTransitive | server.js:20 | the comparison is transitive, so together it is a strict total order |
| Strings.Lower | server.js:27 | lower-casing keeps the length, moves each upper-case letter to its lower-case partner and keeps every other character, so no upper-case letter is left |
| Strings.SameNameCaseOnly | server.js:27 | two names compare equal ignoring case exactly when they have the same length and differ at each position at most in the case of a letter |
| Conversation.ConversationIdSymmetric | server.js:20 | the conversation key of (a, b) equals that of (b, a) |
| Conversation.ConversationId | server.js:20 | the key is the pair joined by a dash, the smaller (or equal) handle first; `b` goes first only when it is strictly `LexLess` than `a` |
| Conversation.JoinInjective | server.js:20 | a dash-join splits back into its parts once the first part's length is known |
| Conversation.ConversationIdInjective | server.js:20 | for handles of equal length, equal keys mean the same unordered pair |
| Conversation.ConversationIdCollision | server.js:20 | for handles of different lengths two different pairs can share a key ("a-b","c" and "a","b-c") |
| Model.Registered | server.js:25-41 | registration keeps both user invariants and leaves exactly one profile with the name, at the registering socket. A case-insensitive match is taken over there with its username and joinedAt kept and its old key gone. Otherwise a fresh profile is stored. Every other profile is unchanged |
| Model.Without | server.js:140 | filtering keeps exactly the members other than the disconnected handle and never grows the list |
| Model.WithoutCounts | server.js:140 | filtering removes every copy of the handle and keeps every other member as often as it occurred |
| Model.WithoutNonEmpty | server.js:141 | the filtered list is empty exactly when every member was the disconnected handle |
| Model.Evict | server.js:139-142 | after the cascade no group contains the handle and every group left is non-empty. A group survives exactly when it had another member, and nothing of it but its members changes. Valid groups stay valid |
| Server.ChatServer.constructor | server.js:16-18 | the server starts with three empty maps, which satisfy the invariants |
| Server.ChatServer.FindByName | server.js:26-28 | the search returns a socket whose profile name matches ignoring case, or reports that none does |
| Server.ChatServer.Register | server.js:25-46 | the invariants are kept and the users map becomes `Registered(...)`. The other maps are unchanged. A user-list broadcast is emitted, then a group-list to the registering socket only |
| Server.ChatServer.SendPrivateMessage | server.js:49-65 | if the sender or target is unregistered, or they are the same, nothing changes and nothing is emitted. Otherwise exactly one message is appended to the end of the log at `ConversationId(from, to)`, which is created when absent. Every other log and map is unchanged, and the message goes to both ends |
| Server.ChatServer.GetPrivateHistory | server.js:68-72 | the requester alone receives the full log with `withId`, or an empty list when no log exists. The state is only read |
| Server.ChatServer.CreateGroup | server.js:75-88 | exactly one group is stored under the given id, with members `[creator] + members` (so non-empty, creator first, not deduplicated) and no messages. Under a fresh id the other groups are kept. The group roster is broadcast |
| Server.ChatServer.SendGroupMessage | server.js:90-106 | for an unknown group or a non-member sender nothing changes and nothing is emitted. Otherwise exactly one message is appended to that group's log only, and it goes to the group's members, sender included |
| Server.ChatServer.GetGroupHistory | server.js:109-117 | the group's log goes to the requester only when the requester is a current member; otherwise nothing is emitted |
| Server.ChatServer.Typing | server.js:120-122 | a typing notice goes to the target unless the target is the sender, in which case nothing is emitted |
| Server.ChatServer.GroupTyping | server.js:125-132 | an unknown group or a non-member sender gets no deliveries. Otherwise one notice goes to each member entry other than the sender, in member order, and the recipients are exactly the members other than the sender |
| Server.ChatServer.Disconnect | server.js:135-146 | an unregistered handle changes nothing and emits nothing. A registered one is removed from users and the groups become `Evict(groups, handle)`. The private logs are kept. A user-list and then a group-list broadcast follow |
| Server.HistorySymmetric | server.js:69-70 | both parties of a conversation read the same private history |
| Server.SentMessageVisibleToPeer | server.js:55-61 | after a message is sent, the recipient's history with the sender is the old one followed by that message, and every other conversation reads as before |

## Left out

- HTTP server, Express app, CORS options, port and `listen` (server.js:1-13, 149-152): bootstrap plumbing outside the routing core.
- Socket.IO transport: how `io.emit`, `socket.emit` and `io.to(...)` reach sockets, including de-duplication of rooms. Emits are modelled only as delivery records; a room that no socket occupies is still listed as a target.
- `uuidv4()` and `new Date()`: the fresh ids and timestamps are method parameters. `CreateGroup` takes the group id as given and, like `groups.set`, overwrites an existing entry under the same id.
- `console.log` on registration (server.js:45): logging only.
- Concurrency: handlers are atomic method calls, matching the single-threaded event loop.
- Insertion order of JavaScript `Map`s: the `user-list` and `group-list` payloads are modelled as sets of values, not ordered arrays. `FindByName` may visit profiles in any order; under the name-uniqueness invariant at most one profile matches, so the result is the same as the source's first match.
- Malformed payloads are outside the model: its event payloads are well-typed. In the source, depending on the state, such a payload makes a handler throw, or stores a profile with no name (a `register` without `username` while no user exists, server.js:26-40, after which every `register` throws at server.js:27 for as long as that profile is stored), or stores a member list split into characters (a string `members`, server.js:83).
- Strings.LexLess: compares characters by code point, while JavaScript's default sort compares UTF-16 code units. Both are strict total orders, which is all the symmetry proof uses.
- Strings.Lower: lower-cases ASCII letters only, not the full Unicode mapping of `toLowerCase`.
- Conversation.ConversationIdInjective: proved only for handles of equal length, since the dash-join can collide otherwise (see `ConversationIdCollision`).
- Disconnect of an unregistered handle: a handle with no profile (it never registered, or its profile was taken over by another socket) is a no-op, as at server.js:136-137, so that handle stays in every group it belongs to. "A disconnected handle appears in no group" is promised for registered handles only; the model captures this faithfully.
