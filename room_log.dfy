/** One room's message log (`messages[room]`) and the in-place updates the
    socket handlers make to it, written as functions on values: the bounded
    append of `send_message`, the `find` by id of `add_reaction` and
    `mark_read`, and the two updates those handlers make to the found message. */
module RoomLog {
  import opened ChatTypes

  // ---------------------------------------------------------------------------
  // Set-like lists and the invariant every logged message keeps

  /** No element occurs twice: what `includes`-before-`push` maintains. */
  ghost predicate NoDup(s: seq<string>) {
    forall i, j :: 0 <= i < j < |s| ==> s[i] != s[j]
  }

  /** A message as it may sit in a room log: not private, and every reaction
      list and the read-by list free of duplicates. */
  ghost predicate Logged(m: Msg) {
    && !m.isPrivate
    && NoDup(m.readBy)
    && forall k :: k in m.reactions ==> NoDup(m.reactions[k])
  }

  ghost predicate LogOk(log: seq<Msg>) {
    forall i :: 0 <= i < |log| ==> Logged(log[i])
  }

  /** `messages[room] || []`: a room that has never had a message reads as
      an empty log. */
  function LogOf(messages: map<string, seq<Msg>>, room: string): (r: seq<Msg>)
    ensures room !in messages ==> r == []
    ensures room in messages ==> r == messages[room]
  {
    if room in messages then messages[room] else []
  }

  // ---------------------------------------------------------------------------
  // send_message: push, then drop the oldest entry when over the bound

  /** `log.push(m); if (log.length > 500) log.shift();` */
  function Push(log: seq<Msg>, m: Msg): (r: seq<Msg>)
    ensures |r| > 0 && r[|r| - 1] == m
    ensures |log| < MaxLog ==> r == log + [m]
    ensures |log| >= MaxLog ==> r == log[1..] + [m]
    ensures |log| <= MaxLog ==> |r| <= MaxLog
    ensures forall x :: x in r ==> x in log || x == m
  {
    var grown := log + [m];
    if |grown| > MaxLog then grown[1..] else grown
  }

  lemma PushKeepsLogOk(log: seq<Msg>, m: Msg)
    requires LogOk(log) && Logged(m)
    ensures LogOk(Push(log, m))
  {
    var r := Push(log, m);
    forall i | 0 <= i < |r| ensures Logged(r[i]) {
      assert r[i] in r;
    }
  }

  /** The newest `MaxLog` entries of `s` (all of them when there are fewer). */
  function Newest(s: seq<Msg>): (r: seq<Msg>)
    ensures |r| == if |s| <= MaxLog then |s| else MaxLog
  {
    if |s| <= MaxLog then s else s[|s| - MaxLog..]
  }

  /** Pushing the messages of `ms` one after another. */
  function PushAll(log: seq<Msg>, ms: seq<Msg>): seq<Msg>
    decreases |ms|
  {
    if ms == [] then log else PushAll(Push(log, ms[0]), ms[1..])
  }

  lemma NewestDropsHead(s: seq<Msg>)
    requires |s| > MaxLog
    ensures Newest(s[1..]) == Newest(s)
  {
  }

  /** A log that starts within the bound holds, after any number of sends,
      exactly the newest `MaxLog` messages of everything it has seen, in the
      order they were sent. */
  lemma {:induction false} PushAllKeepsNewest(log: seq<Msg>, ms: seq<Msg>)
    requires |log| <= MaxLog
    ensures PushAll(log, ms) == Newest(log + ms)
    decreases |ms|
  {
    if ms == [] {
      assert log + ms == log;
    } else {
      var m := ms[0];
      PushAllKeepsNewest(Push(log, m), ms[1..]);
      if |log| < MaxLog {
        assert Push(log, m) + ms[1..] == log + ms;
      } else {
        assert Push(log, m) + ms[1..] == (log + ms)[1..];
        NewestDropsHead(log + ms);
      }
    }
  }

  /** 501 messages sent to a room without a log: the log holds 500 of them,
      the first one sent is the one dropped and the 501st is the newest. */
  lemma FiveHundredAndOne(ms: seq<Msg>)
    requires |ms| == MaxLog + 1
    ensures PushAll([], ms) == ms[1..]
    ensures |PushAll([], ms)| == MaxLog && PushAll([], ms)[MaxLog - 1] == ms[MaxLog]
  {
    PushAllKeepsNewest([], ms);
    assert [] + ms == ms;
  }

  // ---------------------------------------------------------------------------
  // Array.prototype.find by message id

  /** `log.find(m => m.id === id)`, as the index of the first message whose
      id equals `id`; ids may repeat (two messages in one millisecond). */
  function FindIndex(log: seq<Msg>, id: int): (r: Option<nat>)
    ensures r.Some? ==> r.value < |log| && log[r.value].id == id
    ensures r.Some? ==> forall j :: 0 <= j < r.value ==> log[j].id != id
    ensures r.None? <==> forall j :: 0 <= j < |log| ==> log[j].id != id
  {
    if log == [] then None
    else if log[0].id == id then Some(0)
    else match FindIndex(log[1..], id)
      case None => None
      case Some(k) => Some(k + 1)
  }

  /** Whether a log holds a message with the given id depends on the ids alone. */
  lemma {:induction false} FindIndexSameIds(a: seq<Msg>, b: seq<Msg>, id: int)
    requires |a| == |b|
    requires forall j :: 0 <= j < |a| ==> a[j].id == b[j].id
    ensures FindIndex(a, id) == FindIndex(b, id)
    decreases |a|
  {
    if a != [] && a[0].id != id {
      FindIndexSameIds(a[1..], b[1..], id);
    }
  }

  // ---------------------------------------------------------------------------
  // add_reaction on one message

  /** `msg.reactions[reaction] || []` */
  function ReactionList(m: Msg, reaction: string): seq<string> {
    if reaction in m.reactions then m.reactions[reaction] else []
  }

  /** Create `reactions[reaction]` if missing, then add `conn` to it unless it
      is already there. Every other key and every other field is kept. */
  function React(m: Msg, reaction: string, conn: string): (r: Msg)
    ensures r.reactions.Keys == m.reactions.Keys + {reaction}
    ensures forall k :: k in m.reactions && k != reaction ==> r.reactions[k] == m.reactions[k]
    ensures conn in r.reactions[reaction]
    ensures conn in ReactionList(m, reaction) ==> r.reactions[reaction] == ReactionList(m, reaction)
    ensures conn !in ReactionList(m, reaction) ==> r.reactions[reaction] == ReactionList(m, reaction) + [conn]
    ensures r.(reactions := m.reactions) == m
  {
    var prev := ReactionList(m, reaction);
    m.(reactions := m.reactions[reaction := if conn in prev then prev else prev + [conn]])
  }

  lemma ReactIdempotent(m: Msg, reaction: string, conn: string)
    ensures React(React(m, reaction, conn), reaction, conn) == React(m, reaction, conn)
  {
    var once := React(m, reaction, conn);
    assert once.reactions[reaction := once.reactions[reaction]] == once.reactions;
  }

  lemma ReactKeepsLogged(m: Msg, reaction: string, conn: string)
    requires Logged(m)
    ensures Logged(React(m, reaction, conn))
  {
    var r := React(m, reaction, conn);
    var prev := ReactionList(m, reaction);
    assert NoDup(prev);
    forall k | k in r.reactions ensures NoDup(r.reactions[k]) {
      if k == reaction && conn !in prev {
        forall i, j | 0 <= i < j < |prev + [conn]| ensures (prev + [conn])[i] != (prev + [conn])[j] {
          if j == |prev| { assert prev[i] in prev; }
        }
      }
    }
  }

  // ---------------------------------------------------------------------------
  // mark_read on one message

  /** Append `username` to `readBy` unless it is already there. */
  function MarkReadMsg(m: Msg, username: string): (r: Msg)
    ensures username in r.readBy
    ensures username in m.readBy ==> r.readBy == m.readBy
    ensures username !in m.readBy ==> r.readBy == m.readBy + [username]
    ensures r.(readBy := m.readBy) == m
  {
    if username in m.readBy then m else m.(readBy := m.readBy + [username])
  }

  lemma MarkReadIdempotent(m: Msg, username: string)
    ensures MarkReadMsg(MarkReadMsg(m, username), username) == MarkReadMsg(m, username)
  {
  }

  lemma MarkReadKeepsLogged(m: Msg, username: string)
    requires Logged(m)
    ensures Logged(MarkReadMsg(m, username))
  {
    if username !in m.readBy {
      var s := m.readBy + [username];
      forall i, j | 0 <= i < j < |s| ensures s[i] != s[j] {
        if j == |m.readBy| { assert m.readBy[i] in m.readBy; }
      }
    }
  }

  // ---------------------------------------------------------------------------
  // The two updates on a whole log: find the message, then change it in place

  /** `add_reaction` on a log: the first message with id `messageId` gets the
      reaction; when there is none the log is returned as it was. */
  function ReactInLog(log: seq<Msg>, messageId: int, reaction: string, conn: string): (r: seq<Msg>)
    ensures |r| == |log|
    ensures forall j :: 0 <= j < |log| ==> r[j].id == log[j].id
    ensures FindIndex(log, messageId).None? ==> r == log
    ensures forall j :: 0 <= j < |log| && FindIndex(log, messageId) != Some(j) ==> r[j] == log[j]
    ensures FindIndex(log, messageId).Some? ==>
              var i := FindIndex(log, messageId).value;
              r[i] == React(log[i], reaction, conn)
  {
    match FindIndex(log, messageId)
    case None => log
    case Some(i) => log[i := React(log[i], reaction, conn)]
  }

  /** `mark_read` on a log: the first message with id `messageId` is marked
      read by `username`; when there is none the log is returned as it was. */
  function MarkReadInLog(log: seq<Msg>, messageId: int, username: string): (r: seq<Msg>)
    ensures |r| == |log|
    ensures forall j :: 0 <= j < |log| ==> r[j].id == log[j].id
    ensures FindIndex(log, messageId).None? ==> r == log
    ensures forall j :: 0 <= j < |log| && FindIndex(log, messageId) != Some(j) ==> r[j] == log[j]
    ensures FindIndex(log, messageId).Some? ==>
              var i := FindIndex(log, messageId).value;
              r[i] == MarkReadMsg(log[i], username)
  {
    match FindIndex(log, messageId)
    case None => log
    case Some(i) => log[i := MarkReadMsg(log[i], username)]
  }

  /** Reacting twice with the same (connection, message id, symbol) leaves the
      log as reacting once does. */
  lemma {:induction false} ReactInLogIdempotent(log: seq<Msg>, messageId: int, reaction: string, conn: string)
    ensures ReactInLog(ReactInLog(log, messageId, reaction, conn), messageId, reaction, conn)
         == ReactInLog(log, messageId, reaction, conn)
  {
    var once := ReactInLog(log, messageId, reaction, conn);
    FindIndexSameIds(log, once, messageId);
    if FindIndex(log, messageId).Some? {
      ReactIdempotent(log[FindIndex(log, messageId).value], reaction, conn);
    }
  }

  /** Marking the same message read twice leaves the log as marking it once does. */
  lemma {:induction false} MarkReadInLogIdempotent(log: seq<Msg>, messageId: int, username: string)
    ensures MarkReadInLog(MarkReadInLog(log, messageId, username), messageId, username)
         == MarkReadInLog(log, messageId, username)
  {
    var once := MarkReadInLog(log, messageId, username);
    FindIndexSameIds(log, once, messageId);
    if FindIndex(log, messageId).Some? {
      MarkReadIdempotent(log[FindIndex(log, messageId).value], username);
    }
  }

  lemma ReactInLogKeepsLogOk(log: seq<Msg>, messageId: int, reaction: string, conn: string)
    requires LogOk(log)
    ensures LogOk(ReactInLog(log, messageId, reaction, conn))
  {
    if FindIndex(log, messageId).Some? {
      ReactKeepsLogged(log[FindIndex(log, messageId).value], reaction, conn);
    }
  }

  lemma MarkReadInLogKeepsLogOk(log: seq<Msg>, messageId: int, username: string)
    requires LogOk(log)
    ensures LogOk(MarkReadInLog(log, messageId, username))
  {
    if FindIndex(log, messageId).Some? {
      MarkReadKeepsLogged(log[FindIndex(log, messageId).value], username);
    }
  }
}
