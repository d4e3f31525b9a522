/**
 * Account, address-book and block-list operations of `ChatDatabase`
 * (database.js): `createUser`, `addContact`, `getContacts`, `deleteContact`,
 * `blockContact`, `unblockContact` and `isBlocked`.
 */
module Accounts {
  import opened Wrappers
  import opened Seqs
  import opened ChatStore

  /**
   * `createUser`: a taken username is reported first, a taken email second;
   * otherwise exactly one account is appended. `hash` stands for bcrypt.
   */
  function CreateUser(st: Store, username: string, password: string, email: string,
                      hash: string -> string, id: UserId, now: Timestamp): (r: Step<Profile>)
    ensures UsernameTaken(st, username) ==> r == Fail(UsernameExists)
    ensures !UsernameTaken(st, username) && EmailTaken(st, email) ==> r == Fail(EmailExists)
    ensures r.Done? <==> !UsernameTaken(st, username) && !EmailTaken(st, email)
    ensures r.Done? ==> r.store == st.(users := st.users + [User(id, username, email, hash(password), now)])
    ensures r.Done? ==> r.value == Profile(id, username, email)
  {
    if FindFirst(st.users, HasUsername(username)).Some? then Fail(UsernameExists)
    else if FindFirst(st.users, HasEmail(email)).Some? then Fail(EmailExists)
    else
      var u := User(id, username, email, hash(password), now);
      Done(st.(users := st.users + [u]), ProfileOf(u))
  }

  /** A new account keeps usernames, emails and (given a fresh id) user ids unique. */
  lemma CreateUserKeepsValid(st: Store, username: string, password: string, email: string,
                             hash: string -> string, id: UserId, now: Timestamp)
    requires Valid(st)
    requires !UserIdTaken(st, id)
    ensures var r := CreateUser(st, username, password, email, hash, id, now);
      r.Done? ==> Valid(r.store)
  {
    var r := CreateUser(st, username, password, email, hash, id, now);
    if r.Done? {
      var u := User(id, username, email, hash(password), now);
      AppendKeepsDistinct(st.users, u, UserKey);
      AppendKeepsDistinct(st.users, u, Username);
      AppendKeepsDistinct(st.users, u, Email);
    }
  }

  /** A created account is immediately found by its id, with the profile `createUser` returned. */
  lemma CreateUserThenLookup(st: Store, username: string, password: string, email: string,
                             hash: string -> string, id: UserId, now: Timestamp)
    requires !UserIdTaken(st, id)
    ensures var r := CreateUser(st, username, password, email, hash, id, now);
      r.Done? ==> GetUserById(r.store, id) == Some(r.value)
  {
    var r := CreateUser(st, username, password, email, hash, id, now);
    if r.Done? {
      var found := GetUserById(r.store, id);
      assert r.store.users[|st.users|].id == id;
      var i :| 0 <= i < |r.store.users| && found.value == ProfileOf(r.store.users[i]);
      assert i == |st.users|;
    }
  }

  /** JavaScript's `name || fallback` for an optional string: absent and empty both fall back. */
  function NameOr(name: Option<string>, fallback: string): string {
    if name.Some? && name.value != "" then name.value else fallback
  }

  ghost predicate HasContact(st: Store, userId: UserId, contactId: UserId) {
    exists i :: 0 <= i < |st.contacts| && ContactPair(st.contacts[i]) == (userId, contactId)
  }

  function IsContactPair(userId: UserId, contactId: UserId): Contact -> bool {
    (c: Contact) => c.userId == userId && c.contactId == contactId
  }

  /** What `addContact` returns: the stored record joined with the target's profile. */
  datatype AddedContact = AddedContact(contact: Contact, target: Profile)

  /**
   * `addContact`: the target is the first account with `contactEmail`; an
   * unknown email or an existing (owner, target) entry is refused, otherwise
   * one contact is appended whose alias defaults to the target's username.
   */
  function AddContact(st: Store, userId: UserId, contactEmail: string, contactName: Option<string>,
                      id: int, now: Timestamp): (r: Step<AddedContact>)
    ensures !EmailTaken(st, contactEmail) <==> r == Fail(ContactUserNotFound)
    ensures r.Fail? ==> r.error == ContactUserNotFound || r.error == ContactExists
    ensures EmailTaken(st, contactEmail) ==>
      var target := GetUserByEmail(st, contactEmail).value;
      && (r.Fail? <==> HasContact(st, userId, target.id))
      && (r.Done? ==>
            && r.value.target == ProfileOf(target)
            && r.value.contact == Contact(id, userId, target.id, NameOr(contactName, target.username), now)
            && r.store == st.(contacts := st.contacts + [r.value.contact]))
  {
    match GetUserByEmail(st, contactEmail)
    case None => Fail(ContactUserNotFound)
    case Some(target) =>
      if FindFirst(st.contacts, IsContactPair(userId, target.id)).Some? then Fail(ContactExists)
      else
        var c := Contact(id, userId, target.id, NameOr(contactName, target.username), now);
        Done(st.(contacts := st.contacts + [c]), AddedContact(c, ProfileOf(target)))
  }

  /** The duplicate check keeps at most one contact per directed pair. */
  lemma AddContactKeepsValid(st: Store, userId: UserId, contactEmail: string, contactName: Option<string>,
                             id: int, now: Timestamp)
    requires Valid(st)
    ensures var r := AddContact(st, userId, contactEmail, contactName, id, now);
      r.Done? ==> Valid(r.store)
  {
    var r := AddContact(st, userId, contactEmail, contactName, id, now);
    if r.Done? {
      AppendKeepsDistinct(st.contacts, r.value.contact, ContactPair);
    }
  }

  /** A contact entry as `getContacts` lists it, joined with the target account when it exists. */
  datatype ContactView = ContactView(
    id: int,
    contactId: UserId,
    contactName: string,
    contactUsername: Option<string>,
    contactEmail: Option<string>,
    createdAt: Timestamp)

  function ViewOf(st: Store, c: Contact): ContactView {
    var u := GetUserById(st, c.contactId);
    ContactView(c.id, c.contactId, c.contactName,
                if u.Some? then Some(u.value.username) else None,
                if u.Some? then Some(u.value.email) else None,
                c.createdAt)
  }

  function OwnedBy(userId: UserId): Contact -> bool {
    (c: Contact) => c.userId == userId
  }

  /** Each contact entry joined with its target, in order. */
  function ViewsOf(st: Store, cs: seq<Contact>): (r: seq<ContactView>)
    ensures |r| == |cs| && forall i :: 0 <= i < |cs| ==> r[i] == ViewOf(st, cs[i])
  {
    seq(|cs|, i requires 0 <= i < |cs| => ViewOf(st, cs[i]))
  }

  /**
   * `r` lists every contact entry of `userId` exactly once, in store order,
   * each joined with its target: `idx` holds the entries' positions in
   * `st.contacts`.
   */
  ghost predicate ListsOwnContacts(st: Store, userId: UserId, r: seq<ContactView>) {
    exists idx :: ListedAt(st, userId, r, idx)
  }

  ghost predicate ListedAt(st: Store, userId: UserId, r: seq<ContactView>, idx: seq<int>) {
    && PicksExactly(st.contacts, OwnedBy(userId), idx)
    && |idx| == |r|
    && forall i :: 0 <= i < |r| ==> r[i] == ViewOf(st, st.contacts[idx[i]])
  }

  /** `getContacts`: the owner's contact entries in insertion order, each joined with its target. */
  function GetContacts(st: Store, userId: UserId): (r: seq<ContactView>)
    ensures ListsOwnContacts(st, userId, r)
  {
    var own := Filter(st.contacts, OwnedBy(userId));
    OwnViews(st, userId, own);
    ViewsOf(st, own)
  }

  lemma OwnViews(st: Store, userId: UserId, own: seq<Contact>)
    requires own == Filter(st.contacts, OwnedBy(userId))
    ensures ListsOwnContacts(st, userId, ViewsOf(st, own))
  {
    var idx := FilterIndices(st.contacts, OwnedBy(userId));
    assert ListedAt(st, userId, ViewsOf(st, own), idx);
  }

  /** A successful `addContact` makes the new entry the owner's last listed contact. */
  lemma {:induction false} AddContactThenListed(st: Store, userId: UserId, contactEmail: string,
                                                contactName: Option<string>, id: int, now: Timestamp)
    ensures var r := AddContact(st, userId, contactEmail, contactName, id, now);
      r.Done? ==> GetContacts(r.store, userId) == GetContacts(st, userId) + [ViewOf(st, r.value.contact)]
  {
    var r := AddContact(st, userId, contactEmail, contactName, id, now);
    if r.Done? {
      ListAfterAppend(st, userId, r.value.contact);
    }
  }

  lemma ListAfterAppend(st: Store, userId: UserId, c: Contact)
    requires c.userId == userId
    ensures GetContacts(st.(contacts := st.contacts + [c]), userId) == GetContacts(st, userId) + [ViewOf(st, c)]
  {
    var st' := st.(contacts := st.contacts + [c]);
    FilterSnoc(st.contacts, c, OwnedBy(userId));
    var own := Filter(st.contacts, OwnedBy(userId));
    assert Filter(st'.contacts, OwnedBy(userId)) == own + [c];
    SameUsersSameViews(st, st', own + [c]);
    ViewsSnoc(st, own, c);
  }

  lemma ViewsSnoc(st: Store, cs: seq<Contact>, c: Contact)
    ensures ViewsOf(st, cs + [c]) == ViewsOf(st, cs) + [ViewOf(st, c)]
  {
    var a := ViewsOf(st, cs + [c]);
    var b := ViewsOf(st, cs) + [ViewOf(st, c)];
    assert forall i :: 0 <= i < |a| ==> a[i] == b[i];
  }

  /** Views depend only on the users collection. */
  lemma SameUsersSameViews(st: Store, st': Store, cs: seq<Contact>)
    requires st'.users == st.users
    ensures ViewsOf(st', cs) == ViewsOf(st, cs)
  {
    assert forall i :: 0 <= i < |cs| ==> ViewOf(st', cs[i]) == ViewOf(st, cs[i]);
  }

  function NotContactEntry(userId: UserId, contactId: int): Contact -> bool {
    (c: Contact) => !(c.userId == userId && c.id == contactId)
  }

  /**
   * `deleteContact`: removes every entry of the owner with that id (the
   * owner check is part of the match) and keeps all other entries, each
   * once, in their stored order.
   */
  function DeleteContact(st: Store, userId: UserId, contactId: int): (r: Store)
    ensures r.users == st.users && r.blocked == st.blocked && r.messages == st.messages
    ensures forall i :: 0 <= i < |r.contacts| ==>
      r.contacts[i] in st.contacts && !(r.contacts[i].userId == userId && r.contacts[i].id == contactId)
    ensures forall i :: 0 <= i < |st.contacts| && !(st.contacts[i].userId == userId && st.contacts[i].id == contactId) ==>
      st.contacts[i] in r.contacts
    ensures multiset(r.contacts) <= multiset(st.contacts)
    ensures FiltersInOrder(st.contacts, NotContactEntry(userId, contactId), r.contacts)
  {
    var kept := Filter(st.contacts, NotContactEntry(userId, contactId));
    FilterInOrder(st.contacts, NotContactEntry(userId, contactId));
    st.(contacts := kept)
  }

  /** Deleting the same contact twice is the same as deleting it once. */
  lemma DeleteContactIdempotent(st: Store, userId: UserId, contactId: int)
    ensures DeleteContact(DeleteContact(st, userId, contactId), userId, contactId) == DeleteContact(st, userId, contactId)
  {
    var once := DeleteContact(st, userId, contactId);
    FilterKeepsAll(once.contacts, NotContactEntry(userId, contactId));
  }

  lemma DeleteContactKeepsValid(st: Store, userId: UserId, contactId: int)
    requires Valid(st)
    ensures Valid(DeleteContact(st, userId, contactId))
  {
    FilterKeepsDistinct(st.contacts, NotContactEntry(userId, contactId), ContactPair);
  }

  function IsBlockPair(userId: UserId, blockedUserId: UserId): Block -> bool {
    (b: Block) => b.userId == userId && b.blockedUserId == blockedUserId
  }

  function NotBlockPair(userId: UserId, blockedUserId: UserId): Block -> bool {
    (b: Block) => !(b.userId == userId && b.blockedUserId == blockedUserId)
  }

  /** `isBlocked`: whether `userId` has blocked `otherUserId` (directional). */
  function IsBlocked(st: Store, userId: UserId, otherUserId: UserId): (r: bool)
    ensures r <==> exists i :: 0 <= i < |st.blocked| && BlockPair(st.blocked[i]) == (userId, otherUserId)
  {
    FindFirst(st.blocked, IsBlockPair(userId, otherUserId)).Some?
  }

  /** `blockContact`: refuses a pair already blocked, otherwise appends one block record. */
  function BlockContact(st: Store, userId: UserId, blockedUserId: UserId, id: int, now: Timestamp): (r: Step<Block>)
    ensures r.Fail? <==> IsBlocked(st, userId, blockedUserId)
    ensures r.Fail? ==> r.error == AlreadyBlocked
    ensures r.Done? ==> r.value == Block(id, userId, blockedUserId, now)
    ensures r.Done? ==> r.store == st.(blocked := st.blocked + [r.value])
  {
    if IsBlocked(st, userId, blockedUserId) then Fail(AlreadyBlocked)
    else
      var b := Block(id, userId, blockedUserId, now);
      Done(st.(blocked := st.blocked + [b]), b)
  }

  /** `unblockContact`: removes every block record of that directed pair; never fails. */
  function UnblockContact(st: Store, userId: UserId, blockedUserId: UserId): (r: Store)
    ensures r.users == st.users && r.contacts == st.contacts && r.messages == st.messages
    ensures !IsBlocked(r, userId, blockedUserId)
    ensures multiset(r.blocked) <= multiset(st.blocked)
  {
    st.(blocked := Filter(st.blocked, NotBlockPair(userId, blockedUserId)))
  }

  /** Unblocking one pair changes no other pair's status. */
  lemma UnblockFrame(st: Store, userId: UserId, blockedUserId: UserId, x: UserId, y: UserId)
    requires (x, y) != (userId, blockedUserId)
    ensures IsBlocked(UnblockContact(st, userId, blockedUserId), x, y) <==> IsBlocked(st, x, y)
  {
    if IsBlocked(st, x, y) {
      var i :| 0 <= i < |st.blocked| && BlockPair(st.blocked[i]) == (x, y);
      var r := UnblockContact(st, userId, blockedUserId);
      var j :| 0 <= j < |r.blocked| && r.blocked[j] == st.blocked[i];
    }
  }

  /** Blocking makes `isBlocked` true, and unblocking restores the store exactly. */
  lemma {:induction false} BlockUnblockRoundTrip(st: Store, userId: UserId, blockedUserId: UserId, id: int, now: Timestamp)
    ensures var r := BlockContact(st, userId, blockedUserId, id, now);
      r.Done? ==> IsBlocked(r.store, userId, blockedUserId) && UnblockContact(r.store, userId, blockedUserId) == st
  {
    var r := BlockContact(st, userId, blockedUserId, id, now);
    if r.Done? {
      assert r.store.blocked[|st.blocked|] == r.value;
      FilterSnoc(st.blocked, r.value, NotBlockPair(userId, blockedUserId));
      FilterKeepsAll(st.blocked, NotBlockPair(userId, blockedUserId));
    }
  }

  lemma BlockContactKeepsValid(st: Store, userId: UserId, blockedUserId: UserId, id: int, now: Timestamp)
    requires Valid(st)
    ensures var r := BlockContact(st, userId, blockedUserId, id, now);
      r.Done? ==> Valid(r.store)
  {
    var r := BlockContact(st, userId, blockedUserId, id, now);
    if r.Done? {
      AppendKeepsDistinct(st.blocked, r.value, BlockPair);
    }
  }

  lemma UnblockContactKeepsValid(st: Store, userId: UserId, blockedUserId: UserId)
    requires Valid(st)
    ensures Valid(UnblockContact(st, userId, blockedUserId))
  {
    FilterKeepsDistinct(st.blocked, NotBlockPair(userId, blockedUserId), BlockPair);
  }
}
