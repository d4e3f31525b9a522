/**
 * The records of the chat store (`ChatDatabase` in database.js): four
 * in-memory collections of users, contacts, blocks and messages, the error
 * conditions the store raises, and the uniqueness invariants the operations
 * keep.
 */
module ChatStore {
  import opened Wrappers
  import opened Seqs

  type UserId = int

  /** A creation or edit time; ISO-8601 strings order like these integers. */
  type Timestamp = int

  /** A registered account; `password` holds the bcrypt hash, never the clear text. */
  datatype User = User(id: UserId, username: string, email: string, password: string, createdAt: Timestamp)

  /** The public view of a user: what `getUserById` and `createUser` hand out. */
  datatype Profile = Profile(id: UserId, username: string, email: string)

  /** A directed address-book entry: `userId` saved `contactId` under a local alias. */
  datatype Contact = Contact(id: int, userId: UserId, contactId: UserId, contactName: string, createdAt: Timestamp)

  /** A directed block: `userId` blocked `blockedUserId`. */
  datatype Block = Block(id: int, userId: UserId, blockedUserId: UserId, createdAt: Timestamp)

  datatype Message = Message(
    id: int,
    senderId: UserId,
    receiverId: UserId,
    body: string,
    read: bool,
    edited: bool,
    editedAt: Option<Timestamp>,
    deleted: bool,
    deletedAt: Option<Timestamp>,
    createdAt: Timestamp)

  datatype Store = Store(users: seq<User>, contacts: seq<Contact>, blocked: seq<Block>, messages: seq<Message>)

  /** Every condition under which a store operation throws. */
  datatype StoreError =
    | UsernameExists
    | EmailExists
    | ContactUserNotFound
    | ContactExists
    | AlreadyBlocked
    | MessageNotFound
    | NotAuthorizedToEdit
    | NotAuthorizedToDelete

  /** The `Error` message text the store throws for each condition. */
  function ErrorMessage(e: StoreError): string {
    match e
    case UsernameExists => "Username already exists"
    case EmailExists => "Email already exists"
    case ContactUserNotFound => "User with this email not found"
    case ContactExists => "Contact already exists"
    case AlreadyBlocked => "User already blocked"
    case MessageNotFound => "Message not found"
    case NotAuthorizedToEdit => "Not authorized to edit this message"
    case NotAuthorizedToDelete => "Not authorized to delete this message"
  }

  /** Outcome of a store operation that may throw: the new store and its return value, or the error. */
  datatype Step<T> = Done(store: Store, value: T) | Fail(error: StoreError)

  function ProfileOf(u: User): Profile {
    Profile(u.id, u.username, u.email)
  }

  // Keys the collections are searched and kept unique by.

  function UserKey(u: User): UserId { u.id }
  function Username(u: User): string { u.username }
  function Email(u: User): string { u.email }
  function ContactPair(c: Contact): (UserId, UserId) { (c.userId, c.contactId) }
  function BlockPair(b: Block): (UserId, UserId) { (b.userId, b.blockedUserId) }
  function MessageKey(m: Message): int { m.id }
  function MessageTime(m: Message): int { m.createdAt }

  function HasUsername(name: string): User -> bool { (u: User) => u.username == name }
  function HasEmail(email: string): User -> bool { (u: User) => u.email == email }
  function HasUserId(id: UserId): User -> bool { (u: User) => u.id == id }
  function HasMessageId(id: int): Message -> bool { (m: Message) => m.id == id }

  /** The first user record with id `id` (`getUserById`), as its public profile. */
  function GetUserById(st: Store, id: UserId): (r: Option<Profile>)
    ensures r.None? <==> forall i :: 0 <= i < |st.users| ==> st.users[i].id != id
    ensures r.Some? ==> r.value.id == id
    ensures r.Some? ==>
      exists k :: 0 <= k < |st.users| && r.value == ProfileOf(st.users[k]) && forall i :: 0 <= i < k ==> st.users[i].id != id
  {
    match FindFirst(st.users, HasUserId(id))
    case None => None
    case Some(k) => Some(ProfileOf(st.users[k]))
  }

  /** The first user record with address `email` (`getUserByEmail`). */
  function GetUserByEmail(st: Store, email: string): (r: Option<User>)
    ensures r.None? <==> forall i :: 0 <= i < |st.users| ==> st.users[i].email != email
    ensures r.Some? ==> r.value in st.users && r.value.email == email
    ensures r.Some? ==>
      exists k :: 0 <= k < |st.users| && st.users[k] == r.value && forall i :: 0 <= i < k ==> st.users[i].email != email
  {
    match FindFirst(st.users, HasEmail(email))
    case None => None
    case Some(k) => Some(st.users[k])
  }

  ghost predicate UsernameTaken(st: Store, name: string) {
    exists i :: 0 <= i < |st.users| && st.users[i].username == name
  }

  ghost predicate EmailTaken(st: Store, email: string) {
    exists i :: 0 <= i < |st.users| && st.users[i].email == email
  }

  ghost predicate UserIdTaken(st: Store, id: UserId) {
    exists i :: 0 <= i < |st.users| && st.users[i].id == id
  }

  ghost predicate MessageIdTaken(st: Store, id: int) {
    exists i :: 0 <= i < |st.messages| && st.messages[i].id == id
  }

  /**
   * The uniqueness facts the store's checks maintain: one account per
   * username and per email, at most one contact and one block per directed
   * pair, and (given fresh ids) one record per user id and message id.
   */
  ghost predicate Valid(st: Store) {
    && DistinctBy(st.users, UserKey)
    && DistinctBy(st.users, Username)
    && DistinctBy(st.users, Email)
    && DistinctBy(st.contacts, ContactPair)
    && DistinctBy(st.blocked, BlockPair)
    && DistinctBy(st.messages, MessageKey)
  }

  /** Appending a record whose key is new keeps the keys distinct. */
  lemma AppendKeepsDistinct<T, K>(s: seq<T>, x: T, key: T -> K)
    requires DistinctBy(s, key)
    requires forall i :: 0 <= i < |s| ==> key(s[i]) != key(x)
    ensures DistinctBy(s + [x], key)
  {
  }

  /** Replacing a record by one with the same key keeps the keys distinct. */
  lemma UpdateKeepsDistinct<T, K>(s: seq<T>, k: nat, x: T, key: T -> K)
    requires k < |s| && key(x) == key(s[k])
    requires DistinctBy(s, key)
    ensures DistinctBy(s[k := x], key)
  {
  }
}
