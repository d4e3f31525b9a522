/**
 * The message lifecycle of `ChatDatabase` (database.js): `createMessage`,
 * `editMessage`, `deleteMessage` (tombstone for everyone, physical removal
 * for me) and `markMessagesAsRead`.
 */
module Messaging {
  import opened Wrappers
  import opened Seqs
  import opened ChatStore

  /** The fixed body a message deleted for everyone is left with. */
  const Tombstone: string := "Diese Nachricht wurde gel\U{00F6}scht"

  /** `createMessage`: appends one unread, unedited, undeleted message and returns it. */
  function CreateMessage(st: Store, senderId: UserId, receiverId: UserId, body: string,
                         id: int, now: Timestamp): (r: (Store, Message))
    ensures r.0.users == st.users && r.0.contacts == st.contacts && r.0.blocked == st.blocked
    ensures r.0.messages == st.messages + [r.1]
    ensures r.1.id == id && r.1.createdAt == now && r.1.body == body
    ensures r.1.senderId == senderId && r.1.receiverId == receiverId
    ensures !r.1.read && !r.1.edited && !r.1.deleted && r.1.editedAt.None? && r.1.deletedAt.None?
  {
    var m := Message(id, senderId, receiverId, body, false, false, None, false, None, now);
    (st.(messages := st.messages + [m]), m)
  }

  /** With a fresh id the message ids stay unique. */
  lemma CreateMessageKeepsValid(st: Store, senderId: UserId, receiverId: UserId, body: string,
                                id: int, now: Timestamp)
    requires Valid(st)
    requires !MessageIdTaken(st, id)
    ensures Valid(CreateMessage(st, senderId, receiverId, body, id, now).0)
  {
    var r := CreateMessage(st, senderId, receiverId, body, id, now);
    AppendKeepsDistinct(st.messages, r.1, MessageKey);
  }

  /** Index of the first message with id `id`: the row lowdb's `find({id})` and `assign` touch. */
  function FirstWithId(st: Store, id: int): Option<nat> {
    FindFirst(st.messages, HasMessageId(id))
  }

  /**
   * `editMessage`: an unknown id and a caller other than the sender are
   * refused; otherwise the found row gets the new body, `edited` and an edit
   * time, and is returned. A deleted row is not refused.
   */
  function EditMessage(st: Store, messageId: int, newBody: string, userId: UserId, now: Timestamp): (r: Step<Message>)
    ensures !MessageIdTaken(st, messageId) <==> r == Fail(MessageNotFound)
    ensures MessageIdTaken(st, messageId) ==>
      var k := FirstWithId(st, messageId).value;
      && k < |st.messages|
      && (r.Fail? <==> st.messages[k].senderId != userId)
      && (r.Fail? ==> r.error == NotAuthorizedToEdit)
      && (r.Done? ==> r.store == st.(messages := st.messages[k := r.value]))
  {
    match FirstWithId(st, messageId)
    case None => Fail(MessageNotFound)
    case Some(k) =>
      var m := st.messages[k];
      if m.senderId != userId then Fail(NotAuthorizedToEdit)
      else
        var m' := m.(body := newBody, edited := true, editedAt := Some(now));
        Done(st.(messages := st.messages[k := m']), m')
  }

  /**
   * A successful edit changes exactly one row and in it only the body, the
   * edited flag (now true) and the edit time; `deleted` is not consulted, so
   * a tombstone can be edited back into a visible message by its sender.
   */
  lemma EditChangesOnlyBody(st: Store, messageId: int, newBody: string, userId: UserId, now: Timestamp)
    ensures var r := EditMessage(st, messageId, newBody, userId, now);
      r.Done? ==>
        && |r.store.messages| == |st.messages|
        && (exists k :: 0 <= k < |st.messages| && st.messages[k].id == messageId &&
              r.value == st.messages[k].(body := newBody, edited := true, editedAt := Some(now)) &&
              r.store.messages[k] == r.value &&
              (forall i :: 0 <= i < |st.messages| && i != k ==> r.store.messages[i] == st.messages[i]))
        && r.value.senderId == userId
        && r.store.users == st.users && r.store.contacts == st.contacts && r.store.blocked == st.blocked
  {
  }

  /** The sender can edit a message that was deleted for everyone; it stays marked deleted. */
  lemma EditIgnoresTombstone(st: Store, k: nat, newBody: string, now: Timestamp)
    requires k < |st.messages| && st.messages[k].deleted
    requires forall i :: 0 <= i < k ==> st.messages[i].id != st.messages[k].id
    ensures var r := EditMessage(st, st.messages[k].id, newBody, st.messages[k].senderId, now);
      r.Done? && r.value.deleted && r.value.body == newBody && r.value.edited
  {
    assert MessageIdTaken(st, st.messages[k].id);
  }

  lemma EditKeepsValid(st: Store, messageId: int, newBody: string, userId: UserId, now: Timestamp)
    requires Valid(st)
    ensures var r := EditMessage(st, messageId, newBody, userId, now);
      r.Done? ==> Valid(r.store)
  {
    var r := EditMessage(st, messageId, newBody, userId, now);
    if r.Done? {
      var k := FirstWithId(st, messageId).value;
      UpdateKeepsDistinct(st.messages, k, r.value, MessageKey);
    }
  }

  /** What `deleteMessage` returns on success. */
  datatype DeleteResult = DeleteResult(success: bool, deleteForEveryone: bool)

  function NotMessageId(id: int): Message -> bool {
    (m: Message) => m.id != id
  }

  /**
   * `deleteMessage`: an unknown id is refused; the sender check applies only
   * when deleting for me. Deleting for everyone keeps the row as a
   * tombstone; deleting for me removes every row with that id.
   */
  function DeleteMessage(st: Store, messageId: int, userId: UserId, deleteForEveryone: bool,
                         now: Timestamp): (r: Step<DeleteResult>)
    ensures !MessageIdTaken(st, messageId) <==> r == Fail(MessageNotFound)
    ensures r.Done? ==> r.value == DeleteResult(true, deleteForEveryone)
    ensures r.Done? ==> r.store.users == st.users && r.store.contacts == st.contacts && r.store.blocked == st.blocked
  {
    match FirstWithId(st, messageId)
    case None => Fail(MessageNotFound)
    case Some(k) =>
      var m := st.messages[k];
      if m.senderId != userId && !deleteForEveryone then Fail(NotAuthorizedToDelete)
      else if deleteForEveryone then
        var m' := m.(deleted := true, body := Tombstone, deletedAt := Some(now));
        Done(st.(messages := st.messages[k := m']), DeleteResult(true, true))
      else
        Done(st.(messages := Filter(st.messages, NotMessageId(messageId))), DeleteResult(true, false))
  }

  /** Deleting for me is refused exactly when the caller did not send the (first) message with that id. */
  lemma DeleteForMeNeedsSender(st: Store, messageId: int, userId: UserId, now: Timestamp)
    requires MessageIdTaken(st, messageId)
    ensures var r := DeleteMessage(st, messageId, userId, false, now);
      var k := FirstWithId(st, messageId).value;
      k < |st.messages| && (r == Fail(NotAuthorizedToDelete) <==> st.messages[k].senderId != userId)
  {
  }

  /**
   * Deleting for everyone succeeds for any caller: the row count is kept and
   * the row becomes a tombstone, every other row unchanged.
   */
  lemma DeleteForEveryoneTombstones(st: Store, messageId: int, userId: UserId, now: Timestamp)
    requires MessageIdTaken(st, messageId)
    ensures var r := DeleteMessage(st, messageId, userId, true, now);
      && r.Done?
      && |r.store.messages| == |st.messages|
      && (exists k :: 0 <= k < |st.messages| && st.messages[k].id == messageId &&
            r.store.messages[k] == st.messages[k].(deleted := true, body := Tombstone, deletedAt := Some(now)) &&
            (forall i :: 0 <= i < |st.messages| && i != k ==> r.store.messages[i] == st.messages[i]))
  {
  }

  /**
   * With unique ids, a successful delete-for-me removes exactly one row, the
   * one with that id, and keeps every other row.
   */
  lemma DeleteForMeRemovesOne(st: Store, messageId: int, userId: UserId, now: Timestamp)
    requires DistinctBy(st.messages, MessageKey)
    ensures var r := DeleteMessage(st, messageId, userId, false, now);
      r.Done? ==>
        && |r.store.messages| == |st.messages| - 1
        && !MessageIdTaken(r.store, messageId)
        && (forall i :: 0 <= i < |st.messages| && st.messages[i].id != messageId ==> st.messages[i] in r.store.messages)
  {
    var r := DeleteMessage(st, messageId, userId, false, now);
    if r.Done? {
      var k := FirstWithId(st, messageId).value;
      assert r.store.messages == Filter(st.messages, NotMessageId(messageId));
      FilterOutUniqueId(st.messages, messageId, k);
    }
  }

  lemma FilterOutUniqueId(ms: seq<Message>, id: int, k: nat)
    requires DistinctBy(ms, MessageKey)
    requires k < |ms| && ms[k].id == id
    ensures var r := Filter(ms, NotMessageId(id));
      && |r| == |ms| - 1
      && (forall i :: 0 <= i < |r| ==> r[i].id != id)
      && (forall i :: 0 <= i < |ms| && ms[i].id != id ==> ms[i] in r)
  {
    DistinctAt(ms, MessageKey, k);
    assert forall i :: 0 <= i < |ms| && i != k ==> NotMessageId(id)(ms[i]);
    FilterDropsOne(ms, NotMessageId(id), k);
    var r := Filter(ms, NotMessageId(id));
    assert forall i :: 0 <= i < |r| ==> NotMessageId(id)(r[i]);
    assert forall i :: 0 <= i < |ms| && ms[i].id != id ==> NotMessageId(id)(ms[i]);
  }

  lemma DeleteKeepsValid(st: Store, messageId: int, userId: UserId, deleteForEveryone: bool, now: Timestamp)
    requires Valid(st)
    ensures var r := DeleteMessage(st, messageId, userId, deleteForEveryone, now);
      r.Done? ==> Valid(r.store)
  {
    var r := DeleteMessage(st, messageId, userId, deleteForEveryone, now);
    if r.Done? {
      var k := FirstWithId(st, messageId).value;
      if deleteForEveryone {
        UpdateKeepsDistinct(st.messages, k, r.store.messages[k], MessageKey);
      } else {
        FilterKeepsDistinct(st.messages, NotMessageId(messageId), MessageKey);
      }
    }
  }

  /** Matches the unread messages from `senderId` to `receiverId`. */
  function UnreadFromTo(senderId: UserId, receiverId: UserId): Message -> bool {
    (m: Message) => m.senderId == senderId && m.receiverId == receiverId && !m.read
  }

  /** One `find({id}).assign({read: true})`: sets `read` on the first row with that id. */
  function MarkFirstRead(ms: seq<Message>, id: int): (r: seq<Message>)
    ensures |r| == |ms|
    ensures forall i :: 0 <= i < |ms| ==> r[i] == ms[i] || r[i] == ms[i].(read := true)
  {
    match FindFirst(ms, HasMessageId(id))
    case None => ms
    case Some(k) => ms[k := ms[k].(read := true)]
  }

  /** The `forEach` over the matched messages, one find-and-assign per matched id. */
  function MarkEach(ms: seq<Message>, pending: seq<Message>): (r: seq<Message>)
    ensures |r| == |ms|
    ensures forall i :: 0 <= i < |ms| ==> r[i] == ms[i] || r[i] == ms[i].(read := true)
    decreases |pending|
  {
    if pending == [] then ms
    else MarkEach(MarkFirstRead(ms, pending[0].id), pending[1..])
  }

  /**
   * `markMessagesAsRead(senderId, receiverId)`: marks the unread messages
   * from `senderId` to `receiverId` as read and returns how many matched.
   */
  function MarkMessagesAsRead(st: Store, senderId: UserId, receiverId: UserId): (r: (Store, nat))
    ensures r.0.users == st.users && r.0.contacts == st.contacts && r.0.blocked == st.blocked
    ensures |r.0.messages| == |st.messages|
    ensures forall i :: 0 <= i < |st.messages| ==>
      r.0.messages[i] == st.messages[i] || r.0.messages[i] == st.messages[i].(read := true)
    ensures r.1 <= |st.messages|
  {
    var pending := Filter(st.messages, UnreadFromTo(senderId, receiverId));
    (st.(messages := MarkEach(st.messages, pending)), |pending|)
  }

  ghost function IdsOf(pending: seq<Message>): set<int> {
    set p | p in pending :: p.id
  }

  /** The reference meaning of mark-read on one row. */
  function MarkedIfMatch(m: Message, senderId: UserId, receiverId: UserId): Message {
    if UnreadFromTo(senderId, receiverId)(m) then m.(read := true) else m
  }

  lemma MarkFirstReadPointwise(ms: seq<Message>, id: int)
    requires DistinctBy(ms, MessageKey)
    ensures var r := MarkFirstRead(ms, id);
      forall i :: 0 <= i < |ms| ==> r[i] == if ms[i].id == id then ms[i].(read := true) else ms[i]
  {
    match FindFirst(ms, HasMessageId(id))
    case None =>
    case Some(k) =>
      DistinctAt(ms, MessageKey, k);
  }

  /** With unique ids, the per-id loop marks exactly the rows whose id was matched. */
  lemma {:induction false} MarkEachPointwise(ms: seq<Message>, pending: seq<Message>)
    requires DistinctBy(ms, MessageKey)
    ensures var r := MarkEach(ms, pending);
      forall i :: 0 <= i < |ms| ==> r[i] == if ms[i].id in IdsOf(pending) then ms[i].(read := true) else ms[i]
    decreases |pending|
  {
    if pending != [] {
      var id := pending[0].id;
      var rest := pending[1..];
      var ms1 := MarkFirstRead(ms, id);
      MarkFirstReadPointwise(ms, id);
      SameKeysKeepDistinct(ms, ms1);
      MarkEachPointwise(ms1, rest);
      IdsCons(pending);
      MarkEachStep(ms, ms1, MarkEach(ms1, rest), id, IdsOf(rest));
    }
  }

  lemma SameKeysKeepDistinct(ms: seq<Message>, ms1: seq<Message>)
    requires DistinctBy(ms, MessageKey)
    requires |ms1| == |ms| && forall i :: 0 <= i < |ms| ==> ms1[i].id == ms[i].id
    ensures DistinctBy(ms1, MessageKey)
  {
  }

  lemma IdsCons(pending: seq<Message>)
    requires pending != []
    ensures IdsOf(pending) == {pending[0].id} + IdsOf(pending[1..])
  {
    assert pending == [pending[0]] + pending[1..];
  }

  /** Marking one id and then the ids of `rest` marks the ids of `{id} + rest`. */
  lemma MarkEachStep(ms: seq<Message>, ms1: seq<Message>, r: seq<Message>, id: int, rest: set<int>)
    requires |ms1| == |ms| && |r| == |ms|
    requires forall i :: 0 <= i < |ms| ==> ms1[i] == if ms[i].id == id then ms[i].(read := true) else ms[i]
    requires forall i :: 0 <= i < |ms| ==> r[i] == if ms1[i].id in rest then ms1[i].(read := true) else ms1[i]
    ensures forall i :: 0 <= i < |ms| ==> r[i] == if ms[i].id in {id} + rest then ms[i].(read := true) else ms[i]
  {
  }

  /**
   * With unique message ids, `markMessagesAsRead` sets `read` on exactly the
   * messages from the sender to the receiver that were unread, returns how
   * many there were, and leaves every other message as it was.
   */
  lemma MarkReadEffect(st: Store, senderId: UserId, receiverId: UserId)
    requires DistinctBy(st.messages, MessageKey)
    ensures var r := MarkMessagesAsRead(st, senderId, receiverId);
      && r.1 == |Filter(st.messages, UnreadFromTo(senderId, receiverId))|
      && forall i :: 0 <= i < |st.messages| ==> r.0.messages[i] == MarkedIfMatch(st.messages[i], senderId, receiverId)
  {
    var ms := st.messages;
    var pending := Filter(ms, UnreadFromTo(senderId, receiverId));
    MarkEachPointwise(ms, pending);
    forall i | 0 <= i < |ms|
      ensures ms[i].id in IdsOf(pending) <==> UnreadFromTo(senderId, receiverId)(ms[i])
    {
      PendingIdMatches(ms, UnreadFromTo(senderId, receiverId), i);
    }
  }

  /** With unique ids, a row's id is among the filtered ids exactly when the row itself passes the filter. */
  lemma PendingIdMatches(ms: seq<Message>, p: Message -> bool, i: nat)
    requires DistinctBy(ms, MessageKey) && i < |ms|
    ensures ms[i].id in IdsOf(Filter(ms, p)) <==> p(ms[i])
  {
    var pending := Filter(ms, p);
    if ms[i].id in IdsOf(pending) {
      var q :| q in pending && q.id == ms[i].id;
      var j :| 0 <= j < |ms| && ms[j] == q;
      DistinctByIndex(ms, MessageKey, i, j);
    }
    if p(ms[i]) {
      assert ms[i] in pending;
    }
  }

  /** After mark-read no message from the sender to the receiver is unread. */
  lemma MarkReadClears(st: Store, senderId: UserId, receiverId: UserId)
    requires DistinctBy(st.messages, MessageKey)
    ensures var r := MarkMessagesAsRead(st, senderId, receiverId);
      forall i :: 0 <= i < |r.0.messages| ==> !UnreadFromTo(senderId, receiverId)(r.0.messages[i])
  {
    MarkReadEffect(st, senderId, receiverId);
  }

  /** An immediate repeat of mark-read returns 0 and changes nothing. */
  lemma MarkReadIdempotent(st: Store, senderId: UserId, receiverId: UserId)
    requires DistinctBy(st.messages, MessageKey)
    ensures var once := MarkMessagesAsRead(st, senderId, receiverId);
      MarkMessagesAsRead(once.0, senderId, receiverId) == (once.0, 0)
  {
    var once := MarkMessagesAsRead(st, senderId, receiverId);
    MarkReadClears(st, senderId, receiverId);
    FilterDropsAll(once.0.messages, UnreadFromTo(senderId, receiverId));
  }

  lemma MarkReadKeepsValid(st: Store, senderId: UserId, receiverId: UserId)
    requires Valid(st)
    ensures Valid(MarkMessagesAsRead(st, senderId, receiverId).0)
  {
    var r := MarkMessagesAsRead(st, senderId, receiverId);
    assert forall i :: 0 <= i < |st.messages| ==> MessageKey(r.0.messages[i]) == MessageKey(st.messages[i]);
  }
}
