/**
 * The real-time coordinator of server.js: the presence maps `onlineUsers`
 * (socket → user) and `userSockets` (user → socket), the per-socket
 * session fields `socket.userId` / `socket.username`, and the Socket.IO
 * handlers. Each handler is a pure function from the state, the socket it
 * runs on and its payload to the next state and the events it emits.
 */
module Coordinator {
  import opened Wrappers
  import opened Seqs
  import opened ChatStore
  import opened Messaging

  /** Socket.IO connection ids are never empty, so a looked-up id is always truthy. */
  type SocketId = s: string | s != "" witness "socket"

  /** The payload of a verified token. */
  datatype Claims = Claims(userId: UserId, username: string)

  /** The fields a socket carries once `authenticate` has set them. */
  datatype Session = Session(userId: Option<UserId>, username: Option<string>)

  const Anonymous: Session := Session(None, None)

  datatype State = State(
    db: Store,
    onlineUsers: map<SocketId, UserId>,
    userSockets: map<UserId, SocketId>,
    sessions: map<SocketId, Session>)

  /** The body of `new-message` and `message-sent` (the avatar is not modelled). */
  datatype MessageData = MessageData(
    id: int,
    senderId: UserId,
    senderUsername: string,
    receiverId: UserId,
    message: string,
    read: bool,
    createdAt: Timestamp)

  /** The events the handlers emit, one constructor per event name. */
  datatype Event =
    | Authenticated(user: Option<Profile>)
    | AuthError(error: string)
    | UserStatus(userId: UserId, username: Option<string>, online: bool)
    | OnlineUsers(users: set<UserId>)
    | NewMessage(data: MessageData)
    | MessageSent(data: MessageData)
    | ErrorEvent(error: string)
    | UserTyping(typingUserId: Option<UserId>, typingUsername: Option<string>, isTyping: bool)
    | MessagesRead(readerId: UserId)
    | MessageEdited(editedId: int, editedBody: string, edited: bool)
    | MessageEditConfirmed(confirmedId: int, confirmedBody: string, wasEdited: bool)
    | MessageDeleted(deletedId: int, forEveryone: bool)
    | MessageDeleteConfirmed(removedId: int, removedForEveryone: bool)

  /** `socket.emit` / `io.to(id).emit` address one socket; `io.emit` addresses all. */
  datatype OutEvent = ToSocket(socket: SocketId, event: Event) | Broadcast(event: Event)

  datatype Reaction = Reaction(state: State, out: seq<OutEvent>)

  const InvalidToken: string := "Invalid token"
  const NotAuthenticated: string := "Not authenticated"
  /** What reading `sender.username` throws when the sender has no account. */
  const MissingSenderError: string := "Cannot read properties of null (reading 'username')"

  function SessionOf(st: State, sid: SocketId): Session {
    if sid in st.sessions then st.sessions[sid] else Anonymous
  }

  /** `socket.userId` when it is truthy: set and not 0. */
  function AuthUser(st: State, sid: SocketId): (r: Option<UserId>)
    ensures r.Some? <==> SessionOf(st, sid).userId.Some? && SessionOf(st, sid).userId.value != 0
    ensures r.Some? ==> r.value != 0 && SessionOf(st, sid).userId == r
  {
    var s := SessionOf(st, sid);
    if s.userId.Some? && s.userId.value != 0 then s.userId else None
  }

  /** `userSockets.get(u)` followed by `io.to(...).emit(e)` when it is found. */
  function NotifyIfOnline(st: State, u: UserId, e: Event): seq<OutEvent> {
    if u in st.userSockets then [ToSocket(st.userSockets[u], e)] else []
  }

  /**
   * `authenticate`: a token the verifier rejects gets `auth-error`. A good
   * one binds the socket to the user in both presence maps, answers with
   * the stored profile, announces the user online to everybody and sends
   * the socket the ids of all users with a registered socket.
   */
  function Authenticate(st: State, sid: SocketId, token: string, verify: string -> Option<Claims>): (r: Reaction)
    ensures verify(token).None? ==> r == Reaction(st, [ToSocket(sid, AuthError(InvalidToken))])
    ensures verify(token).Some? ==>
      var c := verify(token).value;
      && r.state.db == st.db
      && SessionOf(r.state, sid) == Session(Some(c.userId), Some(c.username))
      && (forall other :: other != sid ==> SessionOf(r.state, other) == SessionOf(st, other))
      && r.state.onlineUsers == st.onlineUsers[sid := c.userId]
      && r.state.userSockets == st.userSockets[c.userId := sid]
      && |r.out| == 3
      && r.out[0] == ToSocket(sid, Authenticated(GetUserById(st.db, c.userId)))
      && r.out[1] == Broadcast(UserStatus(c.userId, Some(c.username), true))
      && r.out[2] == ToSocket(sid, OnlineUsers(st.userSockets.Keys + {c.userId}))
  {
    match verify(token)
    case None => Reaction(st, [ToSocket(sid, AuthError(InvalidToken))])
    case Some(c) =>
      var st' := st.(onlineUsers := st.onlineUsers[sid := c.userId],
                     userSockets := st.userSockets[c.userId := sid],
                     sessions := st.sessions[sid := Session(Some(c.userId), Some(c.username))]);
      assert st'.userSockets.Keys == st.userSockets.Keys + {c.userId};
      Reaction(st', [ToSocket(sid, Authenticated(GetUserById(st.db, c.userId))),
                     Broadcast(UserStatus(c.userId, Some(c.username), true)),
                     ToSocket(sid, OnlineUsers(st'.userSockets.Keys))])
  }

  /**
   * `send-message`: refused on an unauthenticated socket. Otherwise the
   * message is stored first; the receiver gets `new-message` only if it has
   * a socket, and the sender always gets `message-sent`. A sender without
   * an account still has the message stored, then receives the error the
   * null dereference throws.
   */
  function SendMessage(st: State, sid: SocketId, receiverId: UserId, body: string, id: int, now: Timestamp): (r: Reaction)
    ensures AuthUser(st, sid).None? ==> r == Reaction(st, [ToSocket(sid, ErrorEvent(NotAuthenticated))])
    ensures AuthUser(st, sid).Some? ==>
      var u := AuthUser(st, sid).value;
      && r.state.onlineUsers == st.onlineUsers && r.state.userSockets == st.userSockets
      && r.state.sessions == st.sessions
      && r.state.db.users == st.db.users
      && r.state.db.contacts == st.db.contacts && r.state.db.blocked == st.db.blocked
      && |r.state.db.messages| == |st.db.messages| + 1
      && r.state.db.messages[..|st.db.messages|] == st.db.messages
      && (GetUserById(st.db, u).None? ==> r.out == [ToSocket(sid, ErrorEvent(MissingSenderError))])
      && (GetUserById(st.db, u).Some? ==>
            var data := MessageData(id, u, GetUserById(st.db, u).value.username, receiverId, body, false, now);
            r.out == NotifyIfOnline(st, receiverId, NewMessage(data)) + [ToSocket(sid, MessageSent(data))])
  {
    match AuthUser(st, sid)
    case None => Reaction(st, [ToSocket(sid, ErrorEvent(NotAuthenticated))])
    case Some(u) =>
      var (db', saved) := CreateMessage(st.db, u, receiverId, body, id, now);
      var st' := st.(db := db');
      match GetUserById(st.db, u)
      case None => Reaction(st', [ToSocket(sid, ErrorEvent(MissingSenderError))])
      case Some(sender) =>
        var data := MessageData(saved.id, u, sender.username, receiverId, saved.body, false, saved.createdAt);
        Reaction(st', NotifyIfOnline(st, receiverId, NewMessage(data)) + [ToSocket(sid, MessageSent(data))])
  }

  /**
   * `typing`: forwards the indicator to the receiver's socket if there is
   * one, with whatever the sending socket's session holds; there is no
   * authentication check.
   */
  function Typing(st: State, sid: SocketId, receiverId: UserId, isTyping: bool): (r: Reaction)
    ensures r.state == st
    ensures receiverId !in st.userSockets ==> r.out == []
    ensures receiverId in st.userSockets ==>
      r.out == [ToSocket(st.userSockets[receiverId],
                         UserTyping(SessionOf(st, sid).userId, SessionOf(st, sid).username, isTyping))]
  {
    Reaction(st, NotifyIfOnline(st, receiverId,
                                UserTyping(SessionOf(st, sid).userId, SessionOf(st, sid).username, isTyping)))
  }

  /**
   * `mark-read`: silently ignored on an unauthenticated socket; otherwise
   * marks every unread message from `senderId` to the caller and tells the
   * sender's socket, if any, who read them.
   */
  function MarkRead(st: State, sid: SocketId, senderId: UserId): (r: Reaction)
    ensures AuthUser(st, sid).None? ==> r == Reaction(st, [])
    ensures AuthUser(st, sid).Some? ==>
      var u := AuthUser(st, sid).value;
      && r.state == st.(db := MarkMessagesAsRead(st.db, senderId, u).0)
      && r.out == NotifyIfOnline(st, senderId, MessagesRead(u))
  {
    match AuthUser(st, sid)
    case None => Reaction(st, [])
    case Some(u) =>
      Reaction(st.(db := MarkMessagesAsRead(st.db, senderId, u).0), NotifyIfOnline(st, senderId, MessagesRead(u)))
  }

  /**
   * `edit-message`: refused on an unauthenticated socket; a refusal of the
   * store goes back to the caller as an `error` event and changes nothing.
   * On success the receiver named in the payload (not the stored one) is
   * told if online, and the caller gets a confirmation carrying the new body.
   */
  function EditMessageEvent(st: State, sid: SocketId, messageId: int, body: string, receiverId: UserId,
                            now: Timestamp): (r: Reaction)
    ensures AuthUser(st, sid).None? ==> r == Reaction(st, [ToSocket(sid, ErrorEvent(NotAuthenticated))])
    ensures AuthUser(st, sid).Some? ==>
      var step := EditMessage(st.db, messageId, body, AuthUser(st, sid).value, now);
      && (step.Fail? ==> r == Reaction(st, [ToSocket(sid, ErrorEvent(ErrorMessage(step.error)))]))
      && (step.Done? ==>
            && r.state == st.(db := step.store)
            && r.out == NotifyIfOnline(st, receiverId, MessageEdited(messageId, body, true))
                        + [ToSocket(sid, MessageEditConfirmed(messageId, body, true))])
  {
    match AuthUser(st, sid)
    case None => Reaction(st, [ToSocket(sid, ErrorEvent(NotAuthenticated))])
    case Some(u) =>
      match EditMessage(st.db, messageId, body, u, now)
      case Fail(e) => Reaction(st, [ToSocket(sid, ErrorEvent(ErrorMessage(e)))])
      case Done(db', m) =>
        Reaction(st.(db := db'), NotifyIfOnline(st, receiverId, MessageEdited(messageId, m.body, true))
                                 + [ToSocket(sid, MessageEditConfirmed(messageId, m.body, true))])
  }

  /**
   * `delete-message`: refused on an unauthenticated socket; a refusal of
   * the store goes back as an `error` event. On success the receiver named
   * in the payload is told only for a delete for everyone, and the caller
   * always gets a confirmation.
   */
  function DeleteMessageEvent(st: State, sid: SocketId, messageId: int, deleteForEveryone: bool, receiverId: UserId,
                              now: Timestamp): (r: Reaction)
    ensures AuthUser(st, sid).None? ==> r == Reaction(st, [ToSocket(sid, ErrorEvent(NotAuthenticated))])
    ensures AuthUser(st, sid).Some? ==>
      var step := DeleteMessage(st.db, messageId, AuthUser(st, sid).value, deleteForEveryone, now);
      && (step.Fail? ==> r == Reaction(st, [ToSocket(sid, ErrorEvent(ErrorMessage(step.error)))]))
      && (step.Done? ==>
            && r.state == st.(db := step.store)
            && |r.out| >= 1
            && r.out[|r.out| - 1] == ToSocket(sid, MessageDeleteConfirmed(messageId, deleteForEveryone))
            && (!deleteForEveryone ==> |r.out| == 1)
            && (deleteForEveryone ==>
                  r.out[..|r.out| - 1] == NotifyIfOnline(st, receiverId, MessageDeleted(messageId, true))))
  {
    match AuthUser(st, sid)
    case None => Reaction(st, [ToSocket(sid, ErrorEvent(NotAuthenticated))])
    case Some(u) =>
      match DeleteMessage(st.db, messageId, u, deleteForEveryone, now)
      case Fail(e) => Reaction(st, [ToSocket(sid, ErrorEvent(ErrorMessage(e)))])
      case Done(db', _) =>
        var notify := if deleteForEveryone then NotifyIfOnline(st, receiverId, MessageDeleted(messageId, true)) else [];
        Reaction(st.(db := db'), notify + [ToSocket(sid, MessageDeleteConfirmed(messageId, deleteForEveryone))])
  }

  /**
   * `disconnect`: for an authenticated socket, drops the socket's entry and
   * the user's entry (whichever socket it points at) and announces the user
   * offline; an unauthenticated socket leaves without a trace.
   */
  function Disconnect(st: State, sid: SocketId): (r: Reaction)
    ensures AuthUser(st, sid).None? ==> r == Reaction(st, [])
    ensures AuthUser(st, sid).Some? ==>
      var u := AuthUser(st, sid).value;
      && r.state.db == st.db && r.state.sessions == st.sessions
      && sid !in r.state.onlineUsers && u !in r.state.userSockets
      && (forall s :: s in st.onlineUsers && s != sid ==> s in r.state.onlineUsers && r.state.onlineUsers[s] == st.onlineUsers[s])
      && (forall s :: s in r.state.onlineUsers ==> s in st.onlineUsers)
      && (forall v :: v in st.userSockets && v != u ==> v in r.state.userSockets && r.state.userSockets[v] == st.userSockets[v])
      && (forall v :: v in r.state.userSockets ==> v in st.userSockets)
      && r.out == [Broadcast(UserStatus(u, SessionOf(st, sid).username, false))]
  {
    match AuthUser(st, sid)
    case None => Reaction(st, [])
    case Some(u) =>
      Reaction(st.(onlineUsers := st.onlineUsers - {sid}, userSockets := st.userSockets - {u}),
               [Broadcast(UserStatus(u, SessionOf(st, sid).username, false))])
  }

  /** One incoming socket event with its payload. */
  datatype Request =
    | AuthenticateRequest(token: string)
    | SendRequest(to: UserId, body: string)
    | TypingRequest(typingTo: UserId, isTyping: bool)
    | MarkReadRequest(senderId: UserId)
    | EditRequest(editId: int, newBody: string, editReceiver: UserId)
    | DeleteRequest(deleteId: int, deleteForEveryone: bool, deleteReceiver: UserId)
    | DisconnectRequest

  /** What the handlers take from outside: the token verifier, the new message id and the clock. */
  datatype Env = Env(verify: string -> Option<Claims>, nextId: int, now: Timestamp)

  /**
   * Dispatch one event on socket `sid` to its handler. An unauthenticated
   * socket changes nothing but by authenticating, and only the four message
   * events touch the store.
   */
  function Handle(st: State, sid: SocketId, req: Request, env: Env): (r: Reaction)
    ensures AuthUser(st, sid).None? && !req.AuthenticateRequest? ==> r.state == st
    ensures req.AuthenticateRequest? || req.TypingRequest? || req.DisconnectRequest? ==> r.state.db == st.db
  {
    match req
    case AuthenticateRequest(token) => Authenticate(st, sid, token, env.verify)
    case SendRequest(to, body) => SendMessage(st, sid, to, body, env.nextId, env.now)
    case TypingRequest(to, typing) => Typing(st, sid, to, typing)
    case MarkReadRequest(senderId) => MarkRead(st, sid, senderId)
    case EditRequest(id, body, to) => EditMessageEvent(st, sid, id, body, to, env.now)
    case DeleteRequest(id, everyone, to) => DeleteMessageEvent(st, sid, id, everyone, to, env.now)
    case DisconnectRequest => Disconnect(st, sid)
  }

  /**
   * The presence maps only ever point at authenticated sockets: every
   * socket in `onlineUsers` carries the user it is listed under, and every
   * socket in `userSockets` has had a user set. The second half holds in
   * every reachable state already because no handler ever clears a
   * session's user; it cannot name the listed user, since a socket that
   * authenticates again as another user stays the target of the first
   * user's `userSockets` entry.
   */
  ghost predicate Coherent(st: State) {
    && (forall s :: s in st.onlineUsers ==> SessionOf(st, s).userId == Some(st.onlineUsers[s]))
    && (forall u :: u in st.userSockets ==> SessionOf(st, st.userSockets[u]).userId.Some?)
  }

  /** Every handler keeps the presence maps coherent with the sessions. */
  lemma HandleKeepsCoherent(st: State, sid: SocketId, req: Request, env: Env)
    requires Coherent(st)
    ensures Coherent(Handle(st, sid, req, env).state)
  {
    match req
    case AuthenticateRequest(token) => AuthenticateKeepsCoherent(st, sid, token, env.verify);
    case DisconnectRequest => DisconnectKeepsCoherent(st, sid);
    case _ => OtherHandlersKeepPresence(st, sid, req, env);
  }

  lemma AuthenticateKeepsCoherent(st: State, sid: SocketId, token: string, verify: string -> Option<Claims>)
    requires Coherent(st)
    ensures Coherent(Authenticate(st, sid, token, verify).state)
  {
    var r := Authenticate(st, sid, token, verify);
    if verify(token).Some? {
      var c := verify(token).value;
      forall u | u in r.state.userSockets
        ensures SessionOf(r.state, r.state.userSockets[u]).userId.Some?
      {
        if u != c.userId && st.userSockets[u] != sid {
          assert SessionOf(st, st.userSockets[u]).userId.Some?;
        }
      }
    }
  }

  lemma DisconnectKeepsCoherent(st: State, sid: SocketId)
    requires Coherent(st)
    ensures Coherent(Disconnect(st, sid).state)
  {
  }

  /** Only `authenticate` and `disconnect` touch presence; no handler but `authenticate` touches sessions. */
  lemma OtherHandlersKeepPresence(st: State, sid: SocketId, req: Request, env: Env)
    ensures !req.DisconnectRequest? && !req.AuthenticateRequest? ==>
      var r := Handle(st, sid, req, env);
      r.state.onlineUsers == st.onlineUsers && r.state.userSockets == st.userSockets && r.state.sessions == st.sessions
    ensures !req.AuthenticateRequest? ==> Handle(st, sid, req, env).state.sessions == st.sessions
  {
    match req
    case AuthenticateRequest(_) =>
    case SendRequest(to, body) =>
      assert Handle(st, sid, req, env) == SendMessage(st, sid, to, body, env.nextId, env.now);
    case TypingRequest(to, typing) =>
      assert Handle(st, sid, req, env) == Typing(st, sid, to, typing);
    case MarkReadRequest(senderId) =>
      assert Handle(st, sid, req, env) == MarkRead(st, sid, senderId);
    case EditRequest(id, body, to) =>
      assert Handle(st, sid, req, env) == EditMessageEvent(st, sid, id, body, to, env.now);
    case DeleteRequest(id, everyone, to) =>
      assert Handle(st, sid, req, env) == DeleteMessageEvent(st, sid, id, everyone, to, env.now);
    case DisconnectRequest =>
      assert Handle(st, sid, req, env) == Disconnect(st, sid);
  }

  /**
   * Every handler keeps the store's unique keys, provided a new message
   * gets an id no stored message has.
   */
  lemma HandleKeepsValid(st: State, sid: SocketId, req: Request, env: Env)
    requires Valid(st.db)
    requires !MessageIdTaken(st.db, env.nextId)
    ensures Valid(Handle(st, sid, req, env).state.db)
  {
    match req
    case AuthenticateRequest(_) =>
    case SendRequest(to, body) =>
      if AuthUser(st, sid).Some? {
        CreateMessageKeepsValid(st.db, AuthUser(st, sid).value, to, body, env.nextId, env.now);
      }
    case TypingRequest(_, _) =>
    case MarkReadRequest(senderId) =>
      if AuthUser(st, sid).Some? {
        MarkReadKeepsValid(st.db, senderId, AuthUser(st, sid).value);
      }
    case EditRequest(id, body, _) =>
      if AuthUser(st, sid).Some? {
        EditKeepsValid(st.db, id, body, AuthUser(st, sid).value, env.now);
      }
    case DeleteRequest(id, everyone, _) =>
      if AuthUser(st, sid).Some? {
        DeleteKeepsValid(st.db, id, AuthUser(st, sid).value, everyone, env.now);
      }
    case DisconnectRequest =>
  }

  /**
   * A message sent on an authenticated socket is stored, unread, and is
   * appended last to the receiver's unread messages from that sender,
   * whether or not the receiver is online.
   */
  lemma SendStoresUnread(st: State, sid: SocketId, receiverId: UserId, body: string, id: int, now: Timestamp)
    requires AuthUser(st, sid).Some?
    ensures var u := AuthUser(st, sid).value;
      var r := SendMessage(st, sid, receiverId, body, id, now);
      var m := Message(id, u, receiverId, body, false, false, None, false, None, now);
      && r.state.db.messages == st.db.messages + [m]
      && Filter(r.state.db.messages, UnreadFromTo(u, receiverId)) == Filter(st.db.messages, UnreadFromTo(u, receiverId)) + [m]
  {
    var u := AuthUser(st, sid).value;
    var m := Message(id, u, receiverId, body, false, false, None, false, None, now);
    assert SendMessage(st, sid, receiverId, body, id, now).state.db.messages == st.db.messages + [m];
    FilterSnoc(st.db.messages, m, UnreadFromTo(u, receiverId));
  }

  /** A receiver without a registered socket is pushed nothing: the only event goes back to the sender. */
  lemma SendToOfflineOnlyAnswersSender(st: State, sid: SocketId, receiverId: UserId, body: string, id: int, now: Timestamp)
    requires receiverId !in st.userSockets
    ensures var r := SendMessage(st, sid, receiverId, body, id, now);
      |r.out| == 1 && r.out[0].ToSocket? && r.out[0].socket == sid && !r.out[0].event.NewMessage?
  {
  }

  /**
   * A sender with an account always gets `message-sent`, and the receiver's
   * socket gets the same data as `new-message` exactly when the receiver
   * has a registered socket.
   */
  lemma SendDelivery(st: State, sid: SocketId, receiverId: UserId, body: string, id: int, now: Timestamp)
    requires AuthUser(st, sid).Some? && GetUserById(st.db, AuthUser(st, sid).value).Some?
    ensures var r := SendMessage(st, sid, receiverId, body, id, now);
      var data := r.out[|r.out| - 1].event.data;
      && r.out[|r.out| - 1] == ToSocket(sid, MessageSent(data))
      && data.id == id && data.senderId == AuthUser(st, sid).value && data.receiverId == receiverId
      && data.message == body && !data.read && data.createdAt == now
      && ((exists i :: 0 <= i < |r.out| && r.out[i].event.NewMessage?) <==> receiverId in st.userSockets)
      && (receiverId in st.userSockets ==> r.out[0] == ToSocket(st.userSockets[receiverId], NewMessage(data)))
  {
    var r := SendMessage(st, sid, receiverId, body, id, now);
    if receiverId in st.userSockets {
      assert r.out[0].event.NewMessage?;
    }
  }

  /** After `mark-read` the caller has no unread message left from that sender. */
  lemma MarkReadHandlerClears(st: State, sid: SocketId, senderId: UserId)
    requires AuthUser(st, sid).Some?
    requires DistinctBy(st.db.messages, MessageKey)
    ensures var r := MarkRead(st, sid, senderId);
      forall i :: 0 <= i < |r.state.db.messages| ==>
        !UnreadFromTo(senderId, AuthUser(st, sid).value)(r.state.db.messages[i])
  {
    MarkReadClears(st.db, senderId, AuthUser(st, sid).value);
  }

  /**
   * Any authenticated socket can turn any stored message into a tombstone
   * by deleting it for everyone: there is no ownership check on that path.
   */
  lemma AnyoneDeletesForEveryone(st: State, sid: SocketId, messageId: int, receiverId: UserId, now: Timestamp)
    requires AuthUser(st, sid).Some?
    requires MessageIdTaken(st.db, messageId)
    ensures var r := DeleteMessageEvent(st, sid, messageId, true, receiverId, now);
      && r.out[|r.out| - 1] == ToSocket(sid, MessageDeleteConfirmed(messageId, true))
      && |r.state.db.messages| == |st.db.messages|
      && (exists k :: 0 <= k < |st.db.messages| && st.db.messages[k].id == messageId &&
            r.state.db.messages[k].deleted && r.state.db.messages[k].body == Tombstone)
  {
    DeleteForEveryoneTombstones(st.db, messageId, AuthUser(st, sid).value, now);
  }

  /**
   * Connecting and leaving again: after a good token and a disconnect on
   * the same socket, the presence maps are the original ones without that
   * socket and that user, and the user was announced offline.
   */
  lemma AuthenticateThenDisconnect(st: State, sid: SocketId, token: string, verify: string -> Option<Claims>)
    requires verify(token).Some? && verify(token).value.userId != 0
    ensures var c := verify(token).value;
      var r := Disconnect(Authenticate(st, sid, token, verify).state, sid);
      && r.state.db == st.db
      && r.state.onlineUsers == st.onlineUsers - {sid}
      && r.state.userSockets == st.userSockets - {c.userId}
      && r.out == [Broadcast(UserStatus(c.userId, Some(c.username), false))]
  {
  }

  /**
   * A user signed in on two sockets is dropped from `userSockets` when the
   * first one disconnects, although the second is still connected and
   * authenticated: messages to that user are no longer pushed to it, and
   * everybody was told the user went offline.
   */
  lemma StaleDisconnect(st: State, first: SocketId, second: SocketId, token: string, verify: string -> Option<Claims>)
    requires first != second
    requires verify(token).Some? && verify(token).value.userId != 0
    ensures var c := verify(token).value;
      var s1 := Authenticate(st, first, token, verify).state;
      var s2 := Authenticate(s1, second, token, verify).state;
      var r := Disconnect(s2, first);
      && AuthUser(r.state, second) == Some(c.userId)
      && second in r.state.onlineUsers && r.state.onlineUsers[second] == c.userId
      && c.userId !in r.state.userSockets
      && r.out == [Broadcast(UserStatus(c.userId, Some(c.username), false))]
  {
    var c := verify(token).value;
    var s1 := Authenticate(st, first, token, verify).state;
    var s2 := Authenticate(s1, second, token, verify).state;
    assert SessionOf(s2, first) == SessionOf(s1, first);
  }

  /** `typing` needs no sign-in: an anonymous socket's indicator reaches an online receiver without a sender. */
  lemma AnonymousTyping(st: State, sid: SocketId, receiverId: UserId, isTyping: bool)
    requires sid !in st.sessions
    requires receiverId in st.userSockets
    ensures Typing(st, sid, receiverId, isTyping).out ==
      [ToSocket(st.userSockets[receiverId], UserTyping(None, None, isTyping))]
  {
  }
}
