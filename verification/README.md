# Chat service core in Dafny

This project models the two cooperating pieces of a two-party real-time chat
service and proves properties of them:

- **The chat store** (`ChatDatabase`, database.js). It holds four in-memory
  collections: users, contacts, blocks and messages. The model covers:
  - account creation with its duplicate checks;
  - contacts and blocks;
  - the message lifecycle: create, edit, delete for everyone (a tombstone) or
    for me (physical removal), and mark as read;
  - the three derived views: conversation history, per-sender unread counts
    and the chat list.
- **The live-event coordinator** (server.js). This is the Socket.IO handlers
  over the presence maps `onlineUsers` (socket → user) and `userSockets`
  (user → socket), plus the input validation of `/api/register`.

Each collection is a `seq` of immutable records. lowdb's query operations
are modelled as follows:

- `find` returns the first match (`Seqs.FindFirst`).
- `find().assign()` updates that first match.
- `remove` drops every match (`Seqs.Filter`).
- lodash `orderBy` and `Array.prototype.sort` are stable. They are modelled
  by an insertion sort (`Seqs.SortDesc`); `Seqs.SortStable` proves that it
  keeps equal-keyed elements in their input order.

Unique ids are never assumed by an operation. The `ChatStore.Valid`
invariant states them, and the lemmas take it as a hypothesis.

Every socket handler is a pure function from the state, the socket id and
the payload to the next state and a list of emitted events. An event is
either addressed to one socket (`ToSocket`) or to everybody (`Broadcast`).
`Coordinator.Handle` dispatches an incoming request to its handler.

Values from outside are parameters:

- New ids and timestamps (`Date.now()`, `new Date()`) are parameters.
  Timestamps are integers: ISO-8601 strings order like the instants they
  denote.
- Password hashing is a `string -> string` parameter.
- JWT verification is an oracle `string -> Option<Claims>`.

The JavaScript truthiness tests are written out:

- `!socket.userId` is true for an unset id and for `0` (`Coordinator.AuthUser`).
- A registration field is missing when it is absent or `""`.
- A contact alias falls back to the username when it is absent or `""`.

Some behaviour of the code is easy to miss, and the model keeps it:

- Deleting for everyone has no ownership check; deleting for me does.
- Editing a message that was deleted for everyone is not refused.
- `typing` needs no authentication.
- `user-status` is sent to every connection, including the one that
  triggered it.
- `disconnect` removes the user's `userSockets` entry even when that entry
  points at a newer socket of the same user (`Coordinator.StaleDisconnect`).

Files: `wrappers.dfy` (Option, Result), `seqs.dfy` (generic sequence
operations and their lemmas), `store.dfy` (records, errors, invariant),
`accounts.dfy`, `messaging.dfy`, `views.dfy`, `registration.dfy`,
`coordinator.dfy`.

## Model

| member | source | states |
|---|---|---|
| ChatStore.GetUserById | database.js:59-70 | None exactly when no account has the id; otherwise the profile of the first account with that id |
| ChatStore.GetUserByEmail | database.js:51-53 | None exactly when no account has the email; otherwise the first account with it |
| Accounts.CreateUser | database.js:18-49 | a taken username is refused first, then a taken email; success exactly when neither is taken, appending one account with the hashed password and returning its profile |
| Accounts.CreateUserKeepsValid | database.js:18-41 | with a fresh id, creation keeps user ids, usernames and emails unique |
| Accounts.CreateUserThenLookup | database.js:18-70 | after a successful creation with a fresh id, looking the id up returns the profile creation returned |
| Accounts.AddContact | database.js:101-133 | unknown email is refused; otherwise refused exactly when the owner already has the target as a contact; success appends one entry whose alias defaults to the target's username |
| Accounts.AddContactKeepsValid | database.js:108-125 | at most one contact entry per (owner, target) pair is kept |
| Accounts.GetContacts | database.js:135-152 | lists each of the owner's contact entries exactly once and nothing else, in store order, each joined with its target account |
| Accounts.AddContactThenListed | database.js:117-152 | a successful add makes the new entry the owner's last listed contact, the earlier list unchanged |
| Accounts.DeleteContact | database.js:154-158 | removes exactly the owner's entries with that id, keeps every other entry once and in stored order, and leaves the other collections alone |
| Accounts.DeleteContactIdempotent | database.js:154-158 | deleting the same entry twice equals deleting it once |
| Accounts.DeleteContactKeepsValid | database.js:154-158 | deletion keeps the pair uniqueness of contacts |
| Accounts.IsBlocked | database.js:188-193 | true exactly when a block record for the ordered pair exists |
| Accounts.BlockContact | database.js:161-180 | refused with "User already blocked" exactly when the pair is already blocked; success appends and returns one record |
| Accounts.UnblockContact | database.js:182-186 | afterwards the pair is not blocked; only block records are removed |
| Accounts.UnblockFrame | database.js:182-186 | unblocking one pair leaves the blocked status of every other pair as it was |
| Accounts.BlockUnblockRoundTrip | database.js:161-186 | after a successful block the pair is blocked, and unblocking restores the original store exactly |
| Accounts.BlockContactKeepsValid | database.js:161-180 | at most one block record per ordered pair is kept |
| Accounts.UnblockContactKeepsValid | database.js:182-186 | unblocking keeps the pair uniqueness of blocks |
| Messaging.CreateMessage | database.js:214-229 | appends one message that is unread, unedited and not deleted, with the given id, parties, body and time; nothing else changes |
| Messaging.CreateMessageKeepsValid | database.js:214-229 | with a fresh id, message ids stay unique |
| Messaging.EditMessage | database.js:231-252 | "Message not found" exactly for an unknown id; otherwise refused exactly when the caller is not the sender of the first row with the id; success replaces only that row |
| Messaging.EditChangesOnlyBody | database.js:242-251 | a successful edit changes only body, edited flag and edit time of one row with the id, and returns it |
| Messaging.EditIgnoresTombstone | database.js:231-252 | the sender can edit the first message with an id even after it was deleted for everyone; it stays deleted and gets the new body |
| Messaging.EditKeepsValid | database.js:231-252 | an edit keeps message ids unique |
| Messaging.DeleteMessage | database.js:254-283 | "Message not found" exactly for an unknown id; success returns success with the requested variant and touches only messages |
| Messaging.DeleteForMeNeedsSender | database.js:261-263 | deleting for me a stored id is refused exactly when the caller is not the sender of the first message with that id |
| Messaging.DeleteForEveryoneTombstones | database.js:265-274 | deleting for everyone succeeds for any caller and turns one row with the id into the tombstone, all else unchanged |
| Messaging.DeleteForMeRemovesOne | database.js:275-280 | with unique ids, deleting for me removes exactly one row, no row keeps the id, all other rows remain |
| Messaging.DeleteKeepsValid | database.js:254-283 | both deletion variants keep message ids unique |
| Messaging.MarkMessagesAsRead | database.js:311-324 | touches only messages, keeps their number, and changes a row, if at all, only by setting it read; the count is at most the number of messages |
| Messaging.MarkEachPointwise | database.js:316-321 | with unique ids, the per-id find-and-assign loop marks read exactly the rows whose id was matched |
| Messaging.MarkReadEffect | database.js:311-324 | with unique ids, returns the number of unread messages from sender to receiver and marks exactly those read, every other row unchanged |
| Messaging.MarkReadClears | database.js:311-324 | with unique ids, afterwards no message from the sender to the receiver is unread |
| Messaging.MarkReadIdempotent | database.js:311-324 | with unique ids, an immediate repeat returns 0 and leaves the store unchanged |
| Messaging.MarkReadKeepsValid | database.js:311-324 | marking read keeps message ids unique |
| Seqs.SortStable | database.js:291 | the newest-first sort keeps elements with equal keys in their input order, as lodash `orderBy` does |
| Seqs.SortKeepsOrder | database.js:388-390 | two elements with equal keys in the sorted output come from input positions in the same order |
| Views.GetMessagesBetweenUsers | database.js:285-308 | returns min(limit, size of the conversation) messages, zero for a non-positive limit, oldest first |
| Views.HistoryIsNewestWindow | database.js:285-308 | every returned message is a stored message between the two users, none returned more often than stored, every left-out conversation message is no newer than any returned one, and among messages with one timestamp the earliest stored are kept, listed latest-stored first |
| Views.SentMessageEndsHistory | database.js:285-308 | a message newer than all stored ones is, right after creation, the last and unread entry of the history |
| Views.Tally | database.js:331-334 | one entry per sender, each count positive and equal to that sender's number of messages, the counts summing to the input size |
| Views.GetUnreadCount | database.js:326-340 | each sender of an unread message to the user appears once, with a positive count equal to its unread messages to the user, no other sender appears, and the counts sum to the user's unread total |
| Views.UnreadCountIsPerSenderTally | database.js:326-340 | each sender of an unread message to the user appears once, with a positive count equal to its unread messages to the user, and the counts sum to the user's unread total |
| Views.RecentHistory | database.js:285-308 | called without a limit, at most 50 messages come back oldest first, and a conversation of at most 50 messages comes back whole |
| Views.ShortHistoryIsWhole | database.js:285-308 | a limit no smaller than the conversation returns every message of it |
| Views.Collect | database.js:358-367 | one entry per counterpart, each holding a message with that counterpart that no other message with it is newer than; a later message with the same timestamp does not replace it, so the entry holds the first stored of the newest; entries are in the order their counterparts first appear, as a `Map` keeps insertion order |
| Views.GetChatList | database.js:353-390 | fails with the `user.id` dereference error exactly when some counterpart has no account; otherwise one row per counterpart and no other, newest first, each with the counterpart's id, username and email from its account, that pair's newest message (the first stored one on a timestamp tie), its direction and the counterpart's unread count; rows with the same time stay in the order of the user's first message with each counterpart, as the stable `sort` keeps the `chatMap` order |
| Views.RowsMissingIff | database.js:369-379 | building the rows fails exactly when some counterpart in the map has no account |
| Registration.EmailScanMatchesPattern | server.js:51-54 | the scan (no white space, a single `@` not first, a `.` inside the domain) accepts exactly the strings matching the email regular expression |
| Registration.ValidateRegistration | server.js:38-54 | rejects, in order, a missing field, a username under 3, a password under 6 and a non-matching email; accepts exactly when all checks pass |
| Registration.Register | server.js:38-69 | a request failing validation is answered with that error and never reaches the store; a valid request succeeds exactly when username and email are both free, and is otherwise refused with "Username already exists" when the username is taken, else "Email already exists" |
| Registration.RegisterOutcome | server.js:38-69 | a store refusal happens only after validation passed; a valid request succeeds exactly when username and email are both free, a taken username being reported ahead of a taken email; a success has passed every check, stores exactly one new account and that account is found by its id |
| Registration.RegisterDuplicateUsername | server.js:56-69 | a valid request for a taken username is refused with "Username already exists" |
| Coordinator.AuthUser | server.js:288-291 | a socket counts as authenticated exactly when its user id is set and not 0 |
| Coordinator.Authenticate | server.js:246-281 | a rejected token emits only `auth-error` and changes nothing; a good one binds socket and user both ways, answers with the profile, broadcasts online and sends the user-socket keys, which include the new user |
| Coordinator.SendMessage | server.js:284-323 | unauthenticated: only `error`, nothing stored; otherwise one message is appended and users, contacts, blocks and presence are unchanged, `new-message` goes to the receiver iff it has a socket and `message-sent` to the caller; a sender without account gets the dereference error after the store |
| Coordinator.Typing | server.js:326-337 | changes nothing and emits `user-typing` to the receiver iff it has a socket |
| Coordinator.MarkRead | server.js:340-358 | ignored on an unauthenticated socket; otherwise marks the sender's messages read and notifies the sender iff it has a socket |
| Coordinator.EditMessageEvent | server.js:361-393 | a store refusal yields only `error` to the caller; a success notifies the payload's receiver iff it has a socket and always confirms to the caller |
| Coordinator.DeleteMessageEvent | server.js:396-428 | a store refusal yields only `error`; a success notifies the payload's receiver only for a delete for everyone and iff it has a socket, and always confirms |
| Coordinator.Disconnect | server.js:431-447 | an authenticated socket loses its socket entry and its user's entry, whatever socket that points at, and offline is broadcast; otherwise nothing happens |
| Coordinator.Handle | server.js:246-447 | on an unauthenticated socket every event except `authenticate` leaves the state unchanged; `authenticate`, `typing` and `disconnect` never touch the store |
| Coordinator.HandleKeepsCoherent | server.js:246-447 | every handler keeps each `onlineUsers` socket's session holding the user it is listed under, and each `userSockets` target's session holding some user |
| Coordinator.OtherHandlersKeepPresence | server.js:284-428 | only `authenticate` and `disconnect` change the presence maps, and only `authenticate` changes sessions |
| Coordinator.HandleKeepsValid | server.js:246-447 | every handler keeps the store's unique keys when new messages get fresh ids |
| Coordinator.SendStoresUnread | server.js:293-294 | a sent message is appended as the last message of the store and the last of the unread messages from the sender to the receiver, online or not |
| Coordinator.SendToOfflineOnlyAnswersSender | server.js:309-317 | with no socket for the receiver exactly one event is emitted, to the caller, and it is not `new-message` |
| Coordinator.SendDelivery | server.js:296-317 | the caller gets `message-sent` carrying the stored id, parties, body and time; `new-message` with the same data is emitted iff the receiver has a socket |
| Coordinator.MarkReadHandlerClears | server.js:340-350 | with unique message ids, after `mark-read` the caller has no unread message left from that sender |
| Coordinator.AnyoneDeletesForEveryone | server.js:396-428 | any authenticated socket can tombstone any stored message by deleting it for everyone |
| Coordinator.AuthenticateThenDisconnect | server.js:246-447 | authenticating and then disconnecting a socket leaves the presence maps as before without that socket and user, and broadcasts offline |
| Coordinator.StaleDisconnect | server.js:431-447 | with one user on two sockets, disconnecting the first drops the user from `userSockets` while the second is still authenticated and listed |
| Coordinator.AnonymousTyping | server.js:326-337 | an unauthenticated socket's typing indicator reaches an online receiver with no user attached |

## Left out

- Avatars are left out, along with the `encodeURIComponent` URL building.
  Profiles carry id, username and email. `created_at` of `getUserById` is
  not returned.
- Hashing is an opaque `string -> string` parameter and JWT verification an
  opaque oracle. `verifyPassword`, `jwt.sign` and the token in the register
  response are left out for the same reason.
- `getAllUsers`, `getUserByUsername`, `getBlockedContacts` and
  `getLastMessageWithUser` are not part of this model. The socket handlers
  and register do not call them.
- lowdb file persistence (`.write()`) is left out. The collections are
  in-memory sequences.
- Ids from `Date.now()` are not generated. A fresh id is a parameter, and
  the lemmas about unique ids require it to be unused; id collisions are not
  modelled.
- Views.GetMessagesBetweenUsers: the per-message username and avatar join is
  not modelled, only the message rows.
- Views.GetUnreadCount: entries are in first-seen order. For
  sender ids below 2^32 − 1, JavaScript's `Object.entries` would list
  numeric keys in ascending order instead. `Date.now()` ids are above that
  bound.
- Coordinator.Authenticate: `online-users` is a set. The insertion order of
  the JavaScript `Map` keys is not modelled.
- Payload types are not checked. Ids are integers: a string `receiverId`
  missing in the `Map` lookup, and a missing payload object, are not modelled.
- String lengths count characters of `seq<char>`. JavaScript counts UTF-16
  code units, which differs for characters outside the Basic Multilingual
  Plane.
- The `error` texts of the `/api/register` responses are not modelled, only which refusal happens.
- Express routing, HTTP status codes, the Socket.IO transport, logging and
  the login route are left out.
- The browser client is left out.
- Event-loop interleaving is not modelled: each handler runs as one atomic
  step.
