# Real-time chat server: a Dafny model of its in-memory state

The server (`server.js`) keeps three in-memory stores: `users` (connection
id → `{id, username, room}`), `messages` (room name → that room's log, at
most 500 messages, oldest first) and `typingUsers` (connection id →
username, one map shared by every room). Eight socket.io handlers read and
change these stores in place and emit events. The `GET /api/messages`
endpoint filters a room's log by a case-insensitive search term and cuts one
page out of it, counting back from the newest message.

The model has five modules:

- `ChatTypes` (types.dfy): users, messages, event targets and payloads, the
  constants `"global"`, `"Anonymous"` and 500, and JavaScript's `v || d` on
  strings that may be absent.
- `Text` (text.dfy): ASCII `toLowerCase` and `String.prototype.includes`.
- `RoomLog` (room_log.dfy): one room log as a value. It holds the bounded
  append of `send_message`, the first-match `find` by id, and the in-place
  updates of `add_reaction` and `mark_read`, each as a function with lemmas.
- `History` (history.dfy): the `/api/messages` computation, including
  `parseInt(..) || default`, `Array.prototype.filter` and
  `Array.prototype.slice` with JavaScript's treatment of negative and
  out-of-range arguments.
- `ChatServer` (server.dfy): the class `ChatState`, whose fields are the
  three stores. Each socket handler is a method that changes the fields as
  the handler does and returns the events it emits, in order. A target is
  `Unicast(id)` (`socket.emit`), `ToRoom(r)` (`io.to(r).emit`),
  `ToRoomExcept(r, id)` (`socket.to(r).emit`) or `All` (`io.emit`). The
  object invariant `Valid()` holds after every handler:
  - each user entry is filed under its own id;
  - only registered connections appear in `typingUsers`;
  - every room log is non-empty and has at most 500 entries;
  - no room log holds a private message;
  - no reaction list or read-by list holds a duplicate.

  `AliceAndBob` plays through the two-user scenario: join, send, react,
  disconnect.

Node runs each handler to completion on one thread, so a sequential model
is faithful. `Date.now()` and `new Date().toISOString()` are parameters
(`now`, `iso`) of `SendMessage` and `PrivateMessage`.

Choices where the code leaves room:

- `join_room` from an unregistered connection evaluates
  `users[socket.id].room = room` on `undefined` and throws a TypeError.
  `JoinRoom` returns `Threw` in that case and leaves every store unchanged.
- `mark_read` from an unregistered connection looks in "global". When the
  message is found there, `users[socket.id].username` throws before `readBy`
  changes, and `MarkRead` returns `Threw` with the stores unchanged. When the
  message is not found it is a no-op.
- `user_join` overwrites an existing entry for the same id. It keeps that
  connection's `typingUsers` entry, which may still hold the old username.
- Message ids come from the clock and may collide. `find` is modelled as
  "the first index whose id equals the key" (`RoomLog.FindIndex`), so only
  the first of two same-id messages is ever reacted to or marked read.

Behaviour that may be unexpected, which the model follows:

- A page past the start of the log is not short. `start` clamps to 0 and
  the slice still takes up to `pageSize` entries, so such a page is the
  oldest `min(N, pageSize)` entries and repeats entries of the page before it
  (`History.LastPageOverlapsPrevious`, `History.PagesPastTheEndRepeat`).
- A repeated `user_join` overwrites the entry; it is not rejected.
- `join_room` from an unregistered connection throws; it is not ignored.
- `send_message` without a room goes to "global", not to the sender's
  current room.
- Typing state is one map shared by all rooms, and the whole map is sent to
  the typist's room.

## Model

| member | source | states |
|---|---|---|
| `ChatServer.ChatState.constructor` | server.js:40-42 | all three stores start empty, and the invariant holds |
| `ChatServer.ChatState.UserJoin` | server.js:49-55 | `users[id]` becomes `{id, username, "global"}` and replaces any earlier entry; the other stores are unchanged; everyone gets `user_list` with the new map, then `user_joined` |
| `ChatServer.ChatState.JoinRoom` | server.js:58-66 | unregistered id: throws, stores unchanged; registered id: only `users[id].room` changes, to `room`, and only the requester gets `load_messages` with `messages[room]`, or `[]` when that room has no log |
| `ChatServer.ChatState.SendMessage` | server.js:69-86 | the target room is `room` or "global" when it is absent or empty; that room's log becomes `Push(old log, msg)` and the other rooms are unchanged; `msg` has the clock's id and timestamp, sender `users[id].username` or "Anonymous", no reactions, no readers, not private; only that room gets `receive_message`; the invariant survives, so the log stays within 500 |
| `ChatServer.ChatState.PrivateMessage` | server.js:89-102 | changes no store; emits exactly two events: the private message to room `to` without the sender, then the same message to the sender |
| `ChatServer.ChatState.Typing` | server.js:105-111 | unregistered id: nothing changes and nothing is emitted; otherwise `typingUsers[id] := username` when typing, the key `id` is removed when not, other entries are unchanged, and the whole map goes to the user's room |
| `ChatServer.ChatState.AddReaction` | server.js:114-121 | in room `users[id]?.room` or "global", the store becomes `ReactInStore`; no match: nothing changes and nothing is emitted; match: the room gets `message_reaction` with the matched message's new reaction map |
| `ChatServer.ChatState.MarkRead` | server.js:124-130 | no match: no change, no events; match from an unregistered id: throws, no change; match from a registered id: the store becomes `MarkReadInStore` with the caller's username, and the room gets `message_read` with the new read-by list |
| `ChatServer.ChatState.Disconnect` | server.js:133-142 | `id` ends up in neither `users` nor `typingUsers`, and `messages` is unchanged; unknown id: no change and no events; known id: `user_left` goes to its room, then everyone gets `user_list` without it |
| `ChatServer.ChatState.QueryMessages` | server.js:153-165 | the endpoint on the current state returns only messages of the requested room's log, and never a private message |
| `ChatServer.RoomOf` | server.js:115 | the room is never empty; an unregistered connection gets "global"; a registered connection gets its room when that is non-empty, and "global" when it is empty |
| `ChatServer.SenderOf` | server.js:73 | the sender name is never empty; an unregistered connection is "Anonymous"; a registered connection is its username when that is non-empty, and "Anonymous" when it is empty |
| `ChatServer.ReactInStore` | server.js:115-119 | the room keys are unchanged; the logs of other rooms are unchanged; the addressed room's log is `ReactInLog` of its old log |
| `ChatServer.MarkReadInStore` | server.js:125-128 | the room keys are unchanged; the logs of other rooms are unchanged; the addressed room's log is `MarkReadInLog` of its old log |
| `ChatServer.ReactInStoreIdempotent` | server.js:118-119 | repeating an `add_reaction` with the same connection, message id and symbol leaves the store as one application did |
| `ChatServer.MarkReadInStoreIdempotent` | server.js:128 | repeating `mark_read` with the same reader and message id leaves the store as one application did |
| `RoomLog.LogOf` | server.js:116 | a room with no log reads as `[]`, otherwise as its log |
| `RoomLog.Push` | server.js:81-83 | the new message is last; below 500 entries it is a plain append; at 500 or more exactly the oldest entry is dropped; a log within 500 stays within 500; no entry appears that was not in the log or the new message |
| `RoomLog.PushKeepsLogOk` | server.js:81-83 | appending a non-private message with empty reaction and read lists keeps every log entry non-private and duplicate-free |
| `RoomLog.PushAllKeepsNewest` | server.js:81-83 | starting within the bound, any sequence of sends leaves exactly the newest 500 of all messages seen, in the order they were sent |
| `RoomLog.FiveHundredAndOne` | server.js:81-83 | 501 sends to a room with no log leave the last 500: the first message sent is dropped and the 501st is the newest |
| `RoomLog.FindIndex` | server.js:116 | a found index holds the key, and no earlier index does; nothing is found exactly when no entry has the key |
| `RoomLog.FindIndexSameIds` | server.js:116 | two logs with the same ids at every position give the same `find` result |
| `RoomLog.React` | server.js:118-119 | the message's reaction keys gain `reaction`; other keys keep their lists; `conn` is in the list afterwards, appended only when it was absent; the other message fields are unchanged |
| `RoomLog.ReactIdempotent` | server.js:118-119 | reacting twice on one message equals reacting once |
| `RoomLog.ReactKeepsLogged` | server.js:119 | reaction lists stay duplicate-free |
| `RoomLog.MarkReadMsg` | server.js:128 | the username is in `readBy` afterwards, appended only when it was absent; the other message fields are unchanged |
| `RoomLog.MarkReadIdempotent` | server.js:128 | marking one message read twice equals marking it once |
| `RoomLog.MarkReadKeepsLogged` | server.js:128 | the read-by list stays duplicate-free |
| `RoomLog.ReactInLog` | server.js:116-119 | the log keeps its length and ids; no match leaves the log as it was; with a match, only the first matching message changes, and it gains the reaction |
| `RoomLog.MarkReadInLog` | server.js:126-128 | the log keeps its length and ids; no match leaves the log as it was; with a match, only the first matching message changes, and it gains the reader |
| `RoomLog.ReactInLogIdempotent` | server.js:115-119 | reacting twice on a log equals reacting once, even when several messages share the id |
| `RoomLog.MarkReadInLogIdempotent` | server.js:125-128 | marking read twice on a log equals marking once |
| `RoomLog.ReactInLogKeepsLogOk` | server.js:118-119 | a reaction keeps every log entry non-private and duplicate-free |
| `RoomLog.MarkReadInLogKeepsLogOk` | server.js:128 | a read receipt keeps every log entry non-private and duplicate-free |
| `Text.Lower` | server.js:157 | the length is kept, each character is lowered, and no ASCII capital remains |
| `Text.Includes` | server.js:160 | true exactly when the term occurs at some index of the string |
| `History.ParsedOr` | server.js:155-156 | NaN (no value) and 0 give the default; any other parsed integer, negative ones included, is kept; the result is never 0 unless the default is 0 |
| `History.Filter` | server.js:160 | a message is kept exactly when it is in the log and its lowercased body includes the term; the result is never longer than the log |
| `History.FilterAppend` | server.js:160 | filtering a concatenation is the concatenation of the filtered parts, so the kept messages stay in their original order |
| `History.FilterAllMatch` | server.js:160 | when every message matches, the whole log is kept |
| `History.FilterNoneMatch` | server.js:160 | when no message matches, nothing is kept |
| `History.SliceIndex` | server.js:163 | a slice argument maps into `0..n`, and an argument already in range is kept |
| `History.Slice` | server.js:163 | a slice is never longer than its input and holds only its input's elements |
| `History.Page` | server.js:159-163 | a page holds only messages of the room log; with a search term, only messages matching it |
| `History.Query` | server.js:153-164 | the endpoint answers only with messages of the requested room's log, or of "global" when no room is named |
| `History.QueryDefaults` | server.js:154-163 | with no page, page size or search term, the endpoint returns the newest `min(N, 20)` messages of the room, oldest first |
| `History.PageWindow` | server.js:162-163 | for page ≥ 1 and pageSize ≥ 1, the result is `filtered[start .. min(start + pageSize, N)]` with `start = max(N - page * pageSize, 0)`, so it has at most `pageSize` entries |
| `History.PageOneIsNewest` | server.js:162-163 | page 1 is the newest `min(N, pageSize)` filtered entries, oldest first |
| `History.PageInside` | server.js:162-163 | a page with `page * pageSize ≤ N` is the `pageSize` entries starting `page * pageSize` before the end |
| `History.PagesAdjacent` | server.js:162-163 | when `(p + 1) * pageSize ≤ N`, page `p + 1` ends where page `p` begins, with no gap and no overlap |
| `History.PagesPastTheEndRepeat` | server.js:162-163 | whenever `page * pageSize ≥ N`, the start clamps to 0 and the page is the oldest `min(N, pageSize)` entries |
| `History.LastPageOverlapsPrevious` | server.js:162-163 | when `(p - 1) * pageSize < N < p * pageSize`, the tail of page `p` equals the head of page `p - 1`, and that overlap is not empty once `N ≥ pageSize` |

## Left out

- The Express app, CORS, dotenv, static serving and the multer upload endpoint (server.js:1-37, 146-150): these are library wiring and filesystem I/O.
- `GET /api/users`, the root route, `server.listen` and `console.log`: trivial reads, a constant reply, and logging.
- socket.io itself is not modelled: how `socket.join` and `socket.leave` manage room membership, who is in a room at delivery time, and the delivery order. Events are returned as records. The `prevRoom` computed by `join_room` only feeds `socket.leave`, so it has no counterpart. A `join_room` that throws has already run `socket.leave(prevRoom)` and `socket.join(room)` (server.js:60-61), so the socket has moved between socket.io rooms although no store changed; the model does not capture that move.
- `Date.now()` and `toISOString()`: the model takes them as parameters.
- Insertion order of JavaScript object keys: a `user_list`, `typing_users` or `message_reaction` payload carries the map itself. The source sends `Object.values(..)`, or an object whose keys come in insertion order.
- Keys that name `Object.prototype` properties (a room or reaction called `constructor` or `toString`) are looked up in the source through the prototype chain. The model treats them like any other key.
- `toLowerCase` lowers only ASCII letters, because Unicode case mapping is not modelled.
- Numbers are unbounded integers. JavaScript's doubles lose precision beyond 2^53 in message ids and in `page * pageSize`. Fractional values cannot occur, because `parseInt` and `Date.now()` yield integers.
- Inputs have the types the client sends. Payloads of other JavaScript types are not modelled: a non-string username, a missing `data` object (which throws), or a string `messageId` (which never matches under `===`).
- Room messages carry `isPrivate == false`, where the source leaves the field out of the JSON.
- What happens after a handler throws, beyond the stores being unchanged, is not modelled.
- src/pages/ChatPage.jsx, src/pages/LoginPage.jsx and src/socket/socket.js are not part of this model: they are the React client and its socket configuration.
