/** The values the chat server keeps in its three in-memory stores and the
    events it emits through socket.io. Connection ids, usernames, room names,
    message bodies and ISO timestamps are all strings. */
module ChatTypes {

  datatype Option<T> = None | Some(value: T)

  /** The room every connection starts in, and the fallback room name. */
  const GlobalRoom: string := "global"

  /** Sender name used for a connection that never sent `user_join`. */
  const Anonymous: string := "Anonymous"

  /** Bound on the length of one room's message log. */
  const MaxLog: nat := 500

  /** An entry of the `users` store: `{ id, username, room }`. */
  datatype User = User(id: string, username: string, room: string)

  /** A chat message. `reactions` maps a reaction symbol to the connection ids
      that applied it; `readBy` lists the usernames that marked it read.
      Room messages carry `isPrivate == false` (the source leaves the field
      out), private messages `isPrivate == true`. */
  datatype Msg = Msg(
    id: int,
    sender: string,
    senderId: string,
    body: string,
    timestamp: string,
    reactions: map<string, seq<string>>,
    readBy: seq<string>,
    isPrivate: bool)

  /** Who receives an outbound event:
      `socket.emit` (Unicast), `io.to(room).emit` (ToRoom),
      `socket.to(room).emit` (ToRoomExcept: the room without the sender)
      and `io.emit` (All). */
  datatype Target =
    | Unicast(conn: string)
    | ToRoom(room: string)
    | ToRoomExcept(room: string, except: string)
    | All

  /** The payload of each outbound event; the constructor fixes the event name. */
  datatype Payload =
    | UserList(users: map<string, User>)
    | UserJoined(username: string, id: string)
    | LoadMessages(log: seq<Msg>)
    | ReceiveMessage(msg: Msg)
    | PrivateMsg(msg: Msg)
    | TypingUsers(typing: map<string, string>)
    | MessageReaction(messageId: int, reactions: map<string, seq<string>>)
    | MessageRead(messageId: int, readBy: seq<string>)
    | UserLeft(username: string, id: string)
  {
    /** The socket.io event name under which the payload is emitted. */
    function Name(): string {
      match this
      case UserList(_) => "user_list"
      case UserJoined(_, _) => "user_joined"
      case LoadMessages(_) => "load_messages"
      case ReceiveMessage(_) => "receive_message"
      case PrivateMsg(_) => "private_message"
      case TypingUsers(_) => "typing_users"
      case MessageReaction(_, _) => "message_reaction"
      case MessageRead(_, _) => "message_read"
      case UserLeft(_, _) => "user_left"
    }
  }

  datatype Event = Event(target: Target, payload: Payload)

  /** What a handler did: it ran to completion and emitted `events`, or it
      raised a TypeError on an unguarded `users[socket.id]` before changing
      any store. */
  datatype Outcome = Done(events: seq<Event>) | Threw

  /** JavaScript's `v || d` for a string that may be absent: both an absent
      value and the empty string fall back to `d`. */
  function OrElse(v: Option<string>, d: string): string {
    if v.Some? && v.value != "" then v.value else d
  }

  /** A freshly created message: no reactions, nobody has read it. The id is
      the caller's `Date.now()` and the timestamp its ISO rendering. */
  function NewMessage(now: int, sender: string, senderId: string, body: string,
                      iso: string, isPrivate: bool): Msg
  {
    Msg(now, sender, senderId, body, iso, map[], [], isPrivate)
  }
}
