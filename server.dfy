/** The chat server's in-memory state and its socket handlers. Node runs each
    handler to completion before the next one starts, so each handler is one
    method on `ChatState`; instead of calling socket.io it returns the events
    it would emit, in the order it emits them. The clock (`Date.now()` and
    its ISO rendering) is passed in. */
module ChatServer {
  import opened ChatTypes
  import opened RoomLog
  import History

  /** `users[id]?.room || "global"`: the room `add_reaction` and `mark_read`
      look in. */
  function RoomOf(users: map<string, User>, id: string): (r: string)
    ensures r != ""
    ensures id !in users ==> r == GlobalRoom
    ensures id in users && users[id].room != "" ==> r == users[id].room
    ensures id in users && users[id].room == "" ==> r == GlobalRoom
  {
    if id in users && users[id].room != "" then users[id].room else GlobalRoom
  }

  /** `users[id]?.username || "Anonymous"`: the sender name of a new message. */
  function SenderOf(users: map<string, User>, id: string): (r: string)
    ensures r != ""
    ensures id !in users ==> r == Anonymous
    ensures id in users && users[id].username != "" ==> r == users[id].username
    ensures id in users && users[id].username == "" ==> r == Anonymous
  {
    if id in users && users[id].username != "" then users[id].username else Anonymous
  }

  /** `add_reaction` on the whole `messages` store: only the log of `room`
      can change, and a room without a log stays without one. */
  function ReactInStore(messages: map<string, seq<Msg>>, room: string, messageId: int,
                        reaction: string, conn: string): (r: map<string, seq<Msg>>)
    ensures r.Keys == messages.Keys
    ensures forall x :: x in messages && x != room ==> r[x] == messages[x]
    ensures LogOf(r, room) == ReactInLog(LogOf(messages, room), messageId, reaction, conn)
  {
    if room in messages then messages[room := ReactInLog(messages[room], messageId, reaction, conn)]
    else messages
  }

  /** `mark_read` on the whole `messages` store, for a known reader. */
  function MarkReadInStore(messages: map<string, seq<Msg>>, room: string, messageId: int,
                           username: string): (r: map<string, seq<Msg>>)
    ensures r.Keys == messages.Keys
    ensures forall x :: x in messages && x != room ==> r[x] == messages[x]
    ensures LogOf(r, room) == MarkReadInLog(LogOf(messages, room), messageId, username)
  {
    if room in messages then messages[room := MarkReadInLog(messages[room], messageId, username)]
    else messages
  }

  /** An `add_reaction` repeated by the same connection leaves the store as
      the first one did. */
  lemma {:induction false} ReactInStoreIdempotent(messages: map<string, seq<Msg>>, room: string,
                                                  messageId: int, reaction: string, conn: string)
    ensures ReactInStore(ReactInStore(messages, room, messageId, reaction, conn), room, messageId, reaction, conn)
         == ReactInStore(messages, room, messageId, reaction, conn)
  {
    if room in messages {
      ReactInLogIdempotent(messages[room], messageId, reaction, conn);
    }
  }

  /** A repeated `mark_read` leaves the store as the first one did. */
  lemma {:induction false} MarkReadInStoreIdempotent(messages: map<string, seq<Msg>>, room: string,
                                                     messageId: int, username: string)
    ensures MarkReadInStore(MarkReadInStore(messages, room, messageId, username), room, messageId, username)
         == MarkReadInStore(messages, room, messageId, username)
  {
    if room in messages {
      MarkReadInLogIdempotent(messages[room], messageId, username);
    }
  }

  class ChatState {
    /** connection id -> `{ id, username, room }` */
    var users: map<string, User>
    /** room name -> that room's log, oldest first */
    var messages: map<string, seq<Msg>>
    /** connection id -> username, one map for all rooms */
    var typingUsers: map<string, string>

    /** What every handler keeps: each user entry is filed under its own id;
        only registered connections are typing; every room log exists because
        a message was pushed to it, holds at most `MaxLog` messages, and holds
        no private message and no duplicated reaction or read-by entry. */
    ghost predicate Valid()
      reads this
    {
      && (forall k :: k in users ==> users[k].id == k)
      && typingUsers.Keys <= users.Keys
      && (forall r :: r in messages ==> 0 < |messages[r]| <= MaxLog && LogOk(messages[r]))
    }

    constructor ()
      ensures Valid()
      ensures users == map[] && messages == map[] && typingUsers == map[]
    {
      users, messages, typingUsers := map[], map[], map[];
    }

    /** `user_join`: (re)register the connection in "global", overwriting any
        earlier entry, and announce it to everyone. */
    method UserJoin(id: string, username: string) returns (events: seq<Event>)
      requires Valid()
      modifies this
      ensures Valid()
      ensures users == old(users)[id := User(id, username, GlobalRoom)]
      ensures messages == old(messages) && typingUsers == old(typingUsers)
      ensures events == [Event(All, UserList(users)), Event(All, UserJoined(username, id))]
    {
      users := users[id := User(id, username, GlobalRoom)];
      events := [Event(All, UserList(users)), Event(All, UserJoined(username, id))];
    }

    /** `join_room`: move a registered connection to `room` and send it that
        room's log. An unregistered connection makes `users[socket.id].room`
        throw before anything in the stores changes. */
    method JoinRoom(id: string, room: string) returns (outcome: Outcome)
      requires Valid()
      modifies this
      ensures Valid()
      ensures messages == old(messages) && typingUsers == old(typingUsers)
      ensures id !in old(users) ==> outcome == Threw && users == old(users)
      ensures id in old(users) ==>
                && users == old(users)[id := old(users)[id].(room := room)]
                && outcome == Done([Event(Unicast(id), LoadMessages(LogOf(messages, room)))])
    {
      if id !in users {
        return Threw;
      }
      users := users[id := users[id].(room := room)];
      outcome := Done([Event(Unicast(id), LoadMessages(LogOf(messages, room)))]);
    }

    /** `send_message`: append a new message to `room` ("global" when absent
        or empty), keeping at most `MaxLog` entries, and deliver it to the room. */
    method SendMessage(id: string, room: Option<string>, body: string, now: int, iso: string)
      returns (events: seq<Event>)
      requires Valid()
      modifies this
      ensures Valid()
      ensures users == old(users) && typingUsers == old(typingUsers)
      ensures var target := OrElse(room, GlobalRoom);
              var msg := NewMessage(now, SenderOf(old(users), id), id, body, iso, false);
              && messages == old(messages)[target := Push(LogOf(old(messages), target), msg)]
              && events == [Event(ToRoom(target), ReceiveMessage(msg))]
    {
      var target := OrElse(room, GlobalRoom);
      var msg := NewMessage(now, SenderOf(users, id), id, body, iso, false);
      PushKeepsLogOk(LogOf(messages, target), msg);
      messages := messages[target := Push(LogOf(messages, target), msg)];
      events := [Event(ToRoom(target), ReceiveMessage(msg))];
    }

    /** `private_message`: build a private message and deliver it to the room
        named `to` (a connection's own id names a room holding just that
        connection) without the sender, and back to the sender. No store is
        touched, so a private message never reaches a room log. */
    method PrivateMessage(id: string, to: string, body: string, now: int, iso: string)
      returns (events: seq<Event>)
      ensures var msg := NewMessage(now, SenderOf(users, id), id, body, iso, true);
              events == [Event(ToRoomExcept(to, id), PrivateMsg(msg)), Event(Unicast(id), PrivateMsg(msg))]
    {
      var msg := NewMessage(now, SenderOf(users, id), id, body, iso, true);
      events := [Event(ToRoomExcept(to, id), PrivateMsg(msg)), Event(Unicast(id), PrivateMsg(msg))];
    }

    /** `typing`: ignored for an unregistered connection; otherwise set or
        clear this connection's entry of the one shared typing map and send
        the whole map to the connection's room. */
    method Typing(id: string, isTyping: bool) returns (events: seq<Event>)
      requires Valid()
      modifies this
      ensures Valid()
      ensures users == old(users) && messages == old(messages)
      ensures id !in old(users) ==> typingUsers == old(typingUsers) && events == []
      ensures id in old(users) ==>
                && typingUsers == (if isTyping then old(typingUsers)[id := old(users)[id].username]
                                   else old(typingUsers) - {id})
                && events == [Event(ToRoom(old(users)[id].room), TypingUsers(typingUsers))]
    {
      if id !in users {
        return [];
      }
      var room := users[id].room;
      if isTyping {
        typingUsers := typingUsers[id := users[id].username];
      } else {
        typingUsers := typingUsers - {id};
      }
      events := [Event(ToRoom(room), TypingUsers(typingUsers))];
    }

    /** `add_reaction`: in the caller's room, give the first message with
        that id the reaction (at most once per connection) and send the
        message's reaction map to the room; nothing happens when no such
        message is there. */
    method AddReaction(id: string, messageId: int, reaction: string) returns (events: seq<Event>)
      requires Valid()
      modifies this
      ensures Valid()
      ensures users == old(users) && typingUsers == old(typingUsers)
      ensures var room := RoomOf(old(users), id);
              var found := FindIndex(LogOf(old(messages), room), messageId);
              && messages == ReactInStore(old(messages), room, messageId, reaction, id)
              && (found.None? ==> events == [])
              && (found.Some? ==>
                    found.value < |LogOf(messages, room)| &&
                    events == [Event(ToRoom(room),
                                     MessageReaction(messageId, LogOf(messages, room)[found.value].reactions))])
    {
      var room := RoomOf(users, id);
      var found := FindIndex(LogOf(messages, room), messageId);
      if found.None? {
        return [];
      }
      ReactInLogKeepsLogOk(messages[room], messageId, reaction, id);
      messages := ReactInStore(messages, room, messageId, reaction, id);
      events := [Event(ToRoom(room), MessageReaction(messageId, messages[room][found.value].reactions))];
    }

    /** `mark_read`: in the caller's room, add the caller's username to the
        read-by list of the first message with that id (at most once) and
        send the list to the room; nothing happens when no such message is
        there. An unregistered connection looks in "global" and, when the
        message is there, throws on `users[socket.id].username` first. */
    method MarkRead(id: string, messageId: int) returns (outcome: Outcome)
      requires Valid()
      modifies this
      ensures Valid()
      ensures users == old(users) && typingUsers == old(typingUsers)
      ensures var room := RoomOf(old(users), id);
              var found := FindIndex(LogOf(old(messages), room), messageId);
              && (found.None? ==> messages == old(messages) && outcome == Done([]))
              && (found.Some? && id !in old(users) ==> messages == old(messages) && outcome == Threw)
              && (found.Some? && id in old(users) ==>
                    && messages == MarkReadInStore(old(messages), room, messageId, old(users)[id].username)
                    && found.value < |LogOf(messages, room)|
                    && outcome == Done([Event(ToRoom(room),
                                              MessageRead(messageId, LogOf(messages, room)[found.value].readBy))]))
    {
      var room := RoomOf(users, id);
      var found := FindIndex(LogOf(messages, room), messageId);
      if found.None? {
        return Done([]);
      }
      if id !in users {
        return Threw;
      }
      MarkReadInLogKeepsLogOk(messages[room], messageId, users[id].username);
      messages := MarkReadInStore(messages, room, messageId, users[id].username);
      outcome := Done([Event(ToRoom(room), MessageRead(messageId, messages[room][found.value].readBy))]);
    }

    /** `disconnect`: for a registered connection, tell its room it left,
        drop it from `users` and from the typing map, and send everyone the
        new user list. Room logs are kept, messages by the connection too. */
    method Disconnect(id: string) returns (events: seq<Event>)
      requires Valid()
      modifies this
      ensures Valid()
      ensures messages == old(messages)
      ensures id !in users && id !in typingUsers
      ensures id !in old(users) ==> users == old(users) && typingUsers == old(typingUsers) && events == []
      ensures id in old(users) ==>
                && users == old(users) - {id}
                && typingUsers == old(typingUsers) - {id}
                && events == [Event(ToRoom(old(users)[id].room), UserLeft(old(users)[id].username, id)),
                              Event(All, UserList(users))]
    {
      if id !in users {
        return [];
      }
      var user := users[id];
      typingUsers := typingUsers - {id};
      users := users - {id};
      events := [Event(ToRoom(user.room), UserLeft(user.username, id)), Event(All, UserList(users))];
    }

    /** `GET /api/messages` against the current state: what it returns comes
        from the requested room's log, so it never holds a private message. */
    function QueryMessages(room: Option<string>, page: Option<int>, pageSize: Option<int>,
                           search: Option<string>): (r: seq<Msg>)
      requires Valid()
      reads this
      ensures forall m :: m in r ==> m in LogOf(messages, OrElse(room, GlobalRoom))
      ensures forall m :: m in r ==> !m.isPrivate
    {
      var log := LogOf(messages, OrElse(room, GlobalRoom));
      assert forall m :: m in log ==> !m.isPrivate by {
        forall m | m in log ensures !m.isPrivate {
          var i :| 0 <= i < |log| && log[i] == m;
          assert Logged(log[i]);
        }
      }
      History.Query(messages, room, page, pageSize, search)
    }
  }

  /** Two users in room "coding": alice's message reaches the room with no
      reactions and no readers, bob's reaction reaches the room as a map from
      the symbol to bob's id alone, and after bob disconnects the room hears
      that he left and the user list no longer holds him. */
  method AliceAndBob() {
    var s := new ChatState();
    var _ := s.UserJoin("A", "alice");
    var _ := s.UserJoin("B", "bob");
    var _ := s.JoinRoom("A", "coding");
    var _ := s.JoinRoom("B", "coding");
    var sent := s.SendMessage("A", Some("coding"), "hi", 1, "1970-01-01T00:00:00.001Z");
    var hi := Msg(1, "alice", "A", "hi", "1970-01-01T00:00:00.001Z", map[], [], false);
    assert sent == [Event(ToRoom("coding"), ReceiveMessage(hi))];
    assert s.messages["coding"] == [hi];
    var reacted := s.AddReaction("B", 1, "+1");
    assert FindIndex([hi], 1) == Some(0);
    assert ReactionList(hi, "+1") == [];
    assert s.messages["coding"][0] == React(hi, "+1", "B");
    var reactions := React(hi, "+1", "B").reactions;
    assert reactions.Keys == {"+1"} && reactions["+1"] == [] + ["B"] == ["B"];
    assert reactions == map["+1" := ["B"]];
    assert reacted == [Event(ToRoom("coding"), MessageReaction(1, map["+1" := ["B"]]))];
    var left := s.Disconnect("B");
    assert left[0] == Event(ToRoom("coding"), UserLeft("bob", "B"));
    assert left[1].payload.UserList? && "B" !in left[1].payload.users && "A" in left[1].payload.users;
  }
}
