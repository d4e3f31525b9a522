/**
 * The derived read views of `ChatDatabase` (database.js):
 * `getMessagesBetweenUsers` (the newest `limit` messages of a conversation,
 * oldest first), `getUnreadCount` (unread messages per sender) and
 * `getChatList` (one row per counterpart, newest conversation first).
 */
module Views {
  import opened Wrappers
  import opened Seqs
  import opened ChatStore
  import opened Messaging

  // ---------------------------------------------------------------------
  // Conversation history
  // ---------------------------------------------------------------------

  /** Matches the messages exchanged between `a` and `b`, in either direction. */
  function Between(a: UserId, b: UserId): Message -> bool {
    (m: Message) => (m.senderId == a && m.receiverId == b) || (m.senderId == b && m.receiverId == a)
  }

  /**
   * `getMessagesBetweenUsers(a, b, limit)`: the conversation ordered newest
   * first (stably), cut to `limit` entries, then reversed to oldest first.
   */
  function GetMessagesBetweenUsers(st: Store, a: UserId, b: UserId, limit: int): (r: seq<Message>)
    ensures var n := |Filter(st.messages, Between(a, b))|;
      |r| == if limit <= 0 then 0 else if limit < n then limit else n
    ensures NonDecreasing(r, MessageTime)
  {
    var newestFirst := SortDesc(Filter(st.messages, Between(a, b)), MessageTime);
    var window := Take(newestFirst, limit);
    assert NonIncreasing(window, MessageTime);
    Reverse(window)
  }

  /** The pieces `getMessagesBetweenUsers` is computed from. */
  lemma HistoryParts(st: Store, a: UserId, b: UserId, limit: int)
    returns (conv: seq<Message>, sorted: seq<Message>, k: nat)
    ensures conv == Filter(st.messages, Between(a, b))
    ensures sorted == SortDesc(conv, MessageTime)
    ensures k <= |sorted|
    ensures k == if limit <= 0 then 0 else if limit < |sorted| then limit else |sorted|
    ensures GetMessagesBetweenUsers(st, a, b, limit) == Reverse(sorted[..k])
  {
    conv := Filter(st.messages, Between(a, b));
    sorted := SortDesc(conv, MessageTime);
    k := |Take(sorted, limit)|;
    assert Take(sorted, limit) == sorted[..k];
  }

  /** The `limit` `getMessagesBetweenUsers` uses when the caller gives none. */
  const DefaultHistoryLimit: int := 50

  /**
   * `getMessagesBetweenUsers(a, b)` without a limit, as the history route
   * calls it: at most `DefaultHistoryLimit` messages, oldest first, and a
   * conversation no longer than that comes back whole.
   */
  function RecentHistory(st: Store, a: UserId, b: UserId): (r: seq<Message>)
    ensures |r| <= DefaultHistoryLimit
    ensures NonDecreasing(r, MessageTime)
    ensures |Filter(st.messages, Between(a, b))| <= DefaultHistoryLimit ==>
      multiset(r) == multiset(Filter(st.messages, Between(a, b)))
  {
    if |Filter(st.messages, Between(a, b))| <= DefaultHistoryLimit then
      ShortHistoryIsWhole(st, a, b, DefaultHistoryLimit);
      GetMessagesBetweenUsers(st, a, b, DefaultHistoryLimit)
    else
      GetMessagesBetweenUsers(st, a, b, DefaultHistoryLimit)
  }

  /** A limit no smaller than the conversation returns all of it. */
  lemma ShortHistoryIsWhole(st: Store, a: UserId, b: UserId, limit: int)
    requires |Filter(st.messages, Between(a, b))| <= limit
    ensures multiset(GetMessagesBetweenUsers(st, a, b, limit)) == multiset(Filter(st.messages, Between(a, b)))
  {
    var conv, sorted, k := HistoryParts(st, a, b, limit);
    assert sorted[..k] == sorted;
    ReversePermutes(sorted);
  }

  /**
   * The history is a window onto the conversation: every entry is a stored
   * message between `a` and `b` (with no message repeated more often than
   * it is stored), and every conversation message left out is no newer than
   * any message returned. Ties are settled by store order: of the messages
   * sharing one timestamp, the window keeps the earliest stored ones and
   * lists them latest-stored first.
   */
  lemma HistoryIsNewestWindow(st: Store, a: UserId, b: UserId, limit: int)
    ensures var conv := Filter(st.messages, Between(a, b));
      var r := GetMessagesBetweenUsers(st, a, b, limit);
      && multiset(r) <= multiset(conv)
      && (forall i :: 0 <= i < |r| ==> r[i] in st.messages && Between(a, b)(r[i]))
      && (forall x, j :: x in multiset(conv) - multiset(r) && 0 <= j < |r| ==> x.createdAt <= r[j].createdAt)
      && (forall t :: Reverse(Filter(r, KeyIs(MessageTime, t))) <= Filter(conv, KeyIs(MessageTime, t)))
  {
    var conv, sorted, k := HistoryParts(st, a, b, limit);
    HistoryWindow(st, a, b, conv, sorted, k);
  }

  lemma HistoryWindow(st: Store, a: UserId, b: UserId, conv: seq<Message>, sorted: seq<Message>, k: nat)
    requires conv == Filter(st.messages, Between(a, b))
    requires sorted == SortDesc(conv, MessageTime)
    requires k <= |sorted|
    ensures var r := Reverse(sorted[..k]);
      && multiset(r) <= multiset(conv)
      && (forall i :: 0 <= i < |r| ==> r[i] in st.messages && Between(a, b)(r[i]))
      && (forall x, j :: x in multiset(conv) - multiset(r) && 0 <= j < |r| ==> x.createdAt <= r[j].createdAt)
      && (forall t :: Reverse(Filter(r, KeyIs(MessageTime, t))) <= Filter(conv, KeyIs(MessageTime, t)))
  {
    var r := Reverse(sorted[..k]);
    assert multiset(r) <= multiset(conv)
      && forall x, j :: x in multiset(conv) - multiset(r) && 0 <= j < |r| ==> x.createdAt <= r[j].createdAt
    by {
      ReversePermutes(sorted[..k]);
      SplitMultiset(sorted, k);
      HistoryLeftOutIsOlder(conv, sorted, r, k);
    }
    assert multiset(sorted) == multiset(conv);
    HistoryEntries(st, a, b, conv, sorted, r, k);
    HistoryAllTies(conv, sorted, k);
  }

  lemma HistoryAllTies(conv: seq<Message>, sorted: seq<Message>, k: nat)
    requires sorted == SortDesc(conv, MessageTime)
    requires k <= |sorted|
    ensures forall t :: Reverse(Filter(Reverse(sorted[..k]), KeyIs(MessageTime, t))) <= Filter(conv, KeyIs(MessageTime, t))
  {
    forall t
      ensures Reverse(Filter(Reverse(sorted[..k]), KeyIs(MessageTime, t))) <= Filter(conv, KeyIs(MessageTime, t))
    {
      HistoryTies(conv, sorted, k, t);
    }
  }

  /** Per timestamp, the window reversed is a prefix of the conversation's messages in store order. */
  lemma HistoryTies(conv: seq<Message>, sorted: seq<Message>, k: nat, t: int)
    requires sorted == SortDesc(conv, MessageTime)
    requires k <= |sorted|
    ensures Reverse(Filter(Reverse(sorted[..k]), KeyIs(MessageTime, t))) <= Filter(conv, KeyIs(MessageTime, t))
  {
    var p := KeyIs(MessageTime, t);
    FilterReverse(sorted[..k], p);
    ReverseInvolutive(Filter(sorted[..k], p));
    FilterPrefix(sorted, k, p);
    SortStable(conv, MessageTime, t);
  }

  lemma HistoryEntries(st: Store, a: UserId, b: UserId, conv: seq<Message>, sorted: seq<Message>, r: seq<Message>, k: nat)
    requires conv == Filter(st.messages, Between(a, b))
    requires multiset(sorted) == multiset(conv)
    requires k <= |sorted| && r == Reverse(sorted[..k])
    ensures forall i :: 0 <= i < |r| ==> r[i] in st.messages && Between(a, b)(r[i])
  {
    forall i | 0 <= i < |r|
      ensures r[i] in st.messages && Between(a, b)(r[i])
    {
      WindowEntryInConversation(conv, sorted, r, k, i);
      var q :| 0 <= q < |conv| && conv[q] == r[i];
    }
  }

  lemma HistoryLeftOutIsOlder(conv: seq<Message>, sorted: seq<Message>, r: seq<Message>, k: nat)
    requires NonIncreasing(sorted, MessageTime)
    requires multiset(sorted) == multiset(conv)
    requires k <= |sorted| && r == Reverse(sorted[..k])
    requires multiset(r) == multiset(sorted[..k])
    requires multiset(sorted) - multiset(sorted[..k]) == multiset(sorted[k..])
    ensures forall x, j :: x in multiset(conv) - multiset(r) && 0 <= j < |r| ==> x.createdAt <= r[j].createdAt
  {
    forall x, j | x in multiset(conv) - multiset(r) && 0 <= j < |r|
      ensures x.createdAt <= r[j].createdAt
    {
      assert x in multiset(sorted[k..]);
      LeftOutIsOlder(sorted, r, k, x, j);
    }
  }

  lemma LeftOutIsOlder(sorted: seq<Message>, r: seq<Message>, k: nat, x: Message, j: nat)
    requires NonIncreasing(sorted, MessageTime)
    requires k <= |sorted| && r == Reverse(sorted[..k]) && j < |r|
    requires x in multiset(sorted[k..])
    ensures x.createdAt <= r[j].createdAt
  {
    var p :| 0 <= p < |sorted[k..]| && sorted[k..][p] == x;
    assert sorted[k + p] == x;
    assert r[j] == sorted[k - 1 - j];
    assert MessageTime(sorted[k - 1 - j]) >= MessageTime(sorted[k + p]);
  }

  lemma WindowEntryInConversation(conv: seq<Message>, sorted: seq<Message>, r: seq<Message>, k: nat, i: nat)
    requires multiset(sorted) == multiset(conv)
    requires k <= |sorted| && |r| == k && i < k
    requires r[i] == sorted[k - 1 - i]
    ensures r[i] in conv
  {
    assert r[i] in multiset(sorted);
  }

  /**
   * A message sent strictly after everything stored is the last entry of
   * the conversation history, unread, as soon as it is created.
   */
  lemma SentMessageEndsHistory(st: Store, senderId: UserId, receiverId: UserId, body: string,
                               id: int, now: Timestamp, limit: int)
    requires forall i :: 0 <= i < |st.messages| ==> st.messages[i].createdAt < now
    requires limit > 0
    ensures var (st', m) := CreateMessage(st, senderId, receiverId, body, id, now);
      var h := GetMessagesBetweenUsers(st', senderId, receiverId, limit);
      |h| > 0 && h[|h| - 1] == m && !h[|h| - 1].read
  {
    var created := CreateMessage(st, senderId, receiverId, body, id, now);
    var conv, sorted, k := HistoryParts(created.0, senderId, receiverId, limit);
    assert created.0.messages == st.messages + [created.1];
    NewestHeadsConversation(st, created.1, senderId, receiverId, sorted);
    ReverseEndsWithHead(sorted, k);
  }

  lemma NewestHeadsConversation(st: Store, m: Message, a: UserId, b: UserId, sorted: seq<Message>)
    requires forall i :: 0 <= i < |st.messages| ==> st.messages[i].createdAt < m.createdAt
    requires Between(a, b)(m)
    requires sorted == SortDesc(Filter(st.messages + [m], Between(a, b)), MessageTime)
    ensures |sorted| > 0 && sorted[0] == m
  {
    var older := Filter(st.messages, Between(a, b));
    FilterSnoc(st.messages, m, Between(a, b));
    FilteredAreOlder(st.messages, Between(a, b), m.createdAt);
    NewestSortsFirst(older, m, sorted);
  }

  lemma FilteredAreOlder(ms: seq<Message>, p: Message -> bool, now: Timestamp)
    requires forall i :: 0 <= i < |ms| ==> ms[i].createdAt < now
    ensures var f := Filter(ms, p);
      forall i :: 0 <= i < |f| ==> f[i].createdAt < now
  {
    var f := Filter(ms, p);
    forall i | 0 <= i < |f|
      ensures f[i].createdAt < now
    {
      assert f[i] in ms;
      var j :| 0 <= j < |ms| && ms[j] == f[i];
    }
  }

  lemma ReverseEndsWithHead(sorted: seq<Message>, k: nat)
    requires 0 < k <= |sorted|
    ensures var h := Reverse(sorted[..k]);
      |h| > 0 && h[|h| - 1] == sorted[0]
  {
  }

  /** A message strictly newer than all others heads the newest-first order. */
  lemma NewestSortsFirst(older: seq<Message>, m: Message, sorted: seq<Message>)
    requires forall i :: 0 <= i < |older| ==> older[i].createdAt < m.createdAt
    requires multiset(sorted) == multiset(older + [m])
    requires NonIncreasing(sorted, MessageTime)
    ensures |sorted| > 0 && sorted[0] == m
  {
    assert m in multiset(sorted);
    var q :| 0 <= q < |sorted| && sorted[q] == m;
    assert MessageTime(sorted[0]) >= MessageTime(sorted[q]);
    assert sorted[0] in multiset(older + [m]);
  }

  // ---------------------------------------------------------------------
  // Unread counts
  // ---------------------------------------------------------------------

  /** One entry of `getUnreadCount`: a sender and how many of its messages are unread. */
  datatype UnreadCount = UnreadCount(senderId: UserId, count: nat)

  function SenderKey(e: UnreadCount): UserId { e.senderId }

  function IsSender(x: UserId): UnreadCount -> bool {
    (e: UnreadCount) => e.senderId == x
  }

  function FromSender(x: UserId): Message -> bool {
    (m: Message) => m.senderId == x
  }

  function UnreadTo(u: UserId): Message -> bool {
    (m: Message) => m.receiverId == u && !m.read
  }

  /** The count recorded for sender `x`, 0 when `x` has no entry. */
  function CountFor(es: seq<UnreadCount>, x: UserId): nat {
    match FindFirst(es, IsSender(x))
    case None => 0
    case Some(k) => es[k].count
  }

  function Total(es: seq<UnreadCount>): nat {
    if es == [] then 0 else Total(es[..|es| - 1]) + es[|es| - 1].count
  }

  ghost function SendersOf(es: seq<UnreadCount>): set<UserId> {
    set e | e in es :: e.senderId
  }

  lemma {:induction false} TotalUpdate(es: seq<UnreadCount>, k: nat, e: UnreadCount)
    requires k < |es|
    ensures Total(es[k := e]) == Total(es) - es[k].count + e.count
  {
    var n := |es| - 1;
    if k < n {
      TotalUpdate(es[..n], k, e);
      assert es[k := e][..n] == es[..n][k := e];
    } else {
      assert es[k := e][..n] == es[..n];
    }
  }

  lemma CountForDistinct(es: seq<UnreadCount>, k: nat)
    requires DistinctBy(es, SenderKey) && k < |es|
    ensures CountFor(es, es[k].senderId) == es[k].count
  {
    var f := FindFirst(es, IsSender(es[k].senderId));
    DistinctByIndex(es, SenderKey, f.value, k);
  }

  /** The tally facts that hold after each step of the `forEach`. */
  ghost predicate TallyFacts(es: seq<UnreadCount>) {
    && DistinctBy(es, SenderKey)
    && forall i :: 0 <= i < |es| ==> es[i].count > 0
  }

  /** `counts[sender] = (counts[sender] || 0) + 1`. */
  function Bump(es: seq<UnreadCount>, x: UserId): (r: seq<UnreadCount>)
    requires TallyFacts(es)
    ensures TallyFacts(r)
    ensures Total(r) == Total(es) + 1
    ensures SendersOf(r) == SendersOf(es) + {x}
    ensures forall y :: CountFor(r, y) == CountFor(es, y) + (if y == x then 1 else 0)
  {
    match FindFirst(es, IsSender(x))
    case None =>
      BumpNew(es, x);
      es + [UnreadCount(x, 1)]
    case Some(k) =>
      BumpExisting(es, x, k);
      es[k := UnreadCount(x, es[k].count + 1)]
  }

  lemma BumpNew(es: seq<UnreadCount>, x: UserId)
    requires TallyFacts(es)
    requires FindFirst(es, IsSender(x)).None?
    ensures var r := es + [UnreadCount(x, 1)];
      && TallyFacts(r)
      && Total(r) == Total(es) + 1
      && SendersOf(r) == SendersOf(es) + {x}
      && forall y :: CountFor(r, y) == CountFor(es, y) + (if y == x then 1 else 0)
  {
    var r := es + [UnreadCount(x, 1)];
    AppendOne(es, UnreadCount(x, 1));
    assert TallyFacts(r) by {
      AppendKeepsDistinct(es, UnreadCount(x, 1), SenderKey);
    }
    forall y
      ensures CountFor(r, y) == CountFor(es, y) + (if y == x then 1 else 0)
    {
      BumpNewCount(es, x, y);
    }
  }

  /** Appending an entry adds its count to the total and its sender to the senders. */
  lemma AppendOne(es: seq<UnreadCount>, e: UnreadCount)
    ensures Total(es + [e]) == Total(es) + e.count
    ensures SendersOf(es + [e]) == SendersOf(es) + {e.senderId}
  {
    assert (es + [e])[..|es|] == es;
    assert forall x :: x in es + [e] <==> x in es || x == e;
  }

  lemma BumpNewCount(es: seq<UnreadCount>, x: UserId, y: UserId)
    requires DistinctBy(es + [UnreadCount(x, 1)], SenderKey)
    requires FindFirst(es, IsSender(x)).None?
    ensures CountFor(es + [UnreadCount(x, 1)], y) == CountFor(es, y) + (if y == x then 1 else 0)
  {
    if y == x {
      CountForDistinct(es + [UnreadCount(x, 1)], |es|);
    } else {
      FindFirstSnoc(es, UnreadCount(x, 1), IsSender(y));
    }
  }

  lemma BumpExisting(es: seq<UnreadCount>, x: UserId, k: nat)
    requires TallyFacts(es)
    requires FindFirst(es, IsSender(x)) == Some(k)
    ensures k < |es|
    ensures var r := es[k := UnreadCount(x, es[k].count + 1)];
      && TallyFacts(r)
      && Total(r) == Total(es) + 1
      && SendersOf(r) == SendersOf(es) + {x}
      && forall y :: CountFor(r, y) == CountFor(es, y) + (if y == x then 1 else 0)
  {
    var e' := UnreadCount(x, es[k].count + 1);
    var r := es[k := e'];
    TotalUpdate(es, k, e');
    UpdateKeepsDistinct(es, k, e', SenderKey);
    SameSendersUpdate(es, k, e');
    assert TallyFacts(r);
    forall y
      ensures CountFor(r, y) == CountFor(es, y) + (if y == x then 1 else 0)
    {
      BumpExistingCount(es, x, k, y);
    }
  }

  /** Replacing an entry by one with the same sender keeps the set of senders. */
  lemma SameSendersUpdate(es: seq<UnreadCount>, k: nat, e: UnreadCount)
    requires k < |es| && e.senderId == es[k].senderId
    ensures SendersOf(es[k := e]) == SendersOf(es)
  {
    var r := es[k := e];
    forall y | y in SendersOf(r)
      ensures y in SendersOf(es)
    {
      var e :| e in r && e.senderId == y;
      var j :| 0 <= j < |r| && r[j] == e;
      assert es[j].senderId == y;
    }
    forall y | y in SendersOf(es)
      ensures y in SendersOf(r)
    {
      var e :| e in es && e.senderId == y;
      var j :| 0 <= j < |es| && es[j] == e;
      assert r[j].senderId == y;
    }
  }

  lemma BumpExistingCount(es: seq<UnreadCount>, x: UserId, k: nat, y: UserId)
    requires FindFirst(es, IsSender(x)) == Some(k) && k < |es|
    requires DistinctBy(es[k := UnreadCount(x, es[k].count + 1)], SenderKey)
    ensures CountFor(es[k := UnreadCount(x, es[k].count + 1)], y) == CountFor(es, y) + (if y == x then 1 else 0)
  {
    var r := es[k := UnreadCount(x, es[k].count + 1)];
    if y == x {
      CountForDistinct(r, k);
    } else {
      FindFirstSame(r, es, IsSender(y));
      var f := FindFirst(es, IsSender(y));
      if f.Some? {
        assert f.value != k;
      }
    }
  }

  /** Appending an element does not move an earlier first match. */
  lemma {:induction false} FindFirstSnoc<T>(s: seq<T>, x: T, p: T -> bool)
    requires !p(x)
    ensures FindFirst(s + [x], p) == FindFirst(s, p)
  {
    if s != [] {
      assert (s + [x])[1..] == s[1..] + [x];
      FindFirstSnoc(s[1..], x, p);
    }
  }

  /** `FindFirst` only looks at which positions satisfy the predicate. */
  lemma {:induction false} FindFirstSame<T>(s: seq<T>, t: seq<T>, p: T -> bool)
    requires |s| == |t|
    requires forall i :: 0 <= i < |s| ==> (p(s[i]) <==> p(t[i]))
    ensures FindFirst(s, p) == FindFirst(t, p)
  {
    if s != [] {
      FindFirstSame(s[1..], t[1..], p);
    }
  }

  /** The `forEach` over unread messages building the per-sender tally. */
  function Tally(ms: seq<Message>): (r: seq<UnreadCount>)
    ensures DistinctBy(r, SenderKey)
    ensures forall i :: 0 <= i < |r| ==> r[i].count > 0
    ensures Total(r) == |ms|
    ensures SendersOf(r) == set m | m in ms :: m.senderId
    ensures forall x :: CountFor(r, x) == |Filter(ms, FromSender(x))|
  {
    if ms == [] then []
    else
      var init := ms[..|ms| - 1];
      var prev := Tally(init);
      TallyStep(ms, prev);
      Bump(prev, ms[|ms| - 1].senderId)
  }

  lemma TallyStep(ms: seq<Message>, prev: seq<UnreadCount>)
    requires ms != []
    requires TallyFacts(prev)
    requires SendersOf(prev) == set m | m in ms[..|ms| - 1] :: m.senderId
    requires forall x :: CountFor(prev, x) == |Filter(ms[..|ms| - 1], FromSender(x))|
    ensures var r := Bump(prev, ms[|ms| - 1].senderId);
      && SendersOf(r) == (set m | m in ms :: m.senderId)
      && forall x :: CountFor(r, x) == |Filter(ms, FromSender(x))|
  {
    var init := ms[..|ms| - 1];
    var last := ms[|ms| - 1];
    SendersSnoc(ms);
    forall x
      ensures |Filter(ms, FromSender(x))| == |Filter(init, FromSender(x))| + (if last.senderId == x then 1 else 0)
    {
      CountSnoc(ms, x);
    }
  }

  lemma SendersSnoc(ms: seq<Message>)
    requires ms != []
    ensures (set m | m in ms :: m.senderId) == (set m | m in ms[..|ms| - 1] :: m.senderId) + {ms[|ms| - 1].senderId}
  {
    assert ms == ms[..|ms| - 1] + [ms[|ms| - 1]];
  }

  lemma CountSnoc(ms: seq<Message>, x: UserId)
    requires ms != []
    ensures |Filter(ms, FromSender(x))| == |Filter(ms[..|ms| - 1], FromSender(x))| + (if ms[|ms| - 1].senderId == x then 1 else 0)
  {
  }

  /**
   * `r` lists each sender once with a positive count equal to its unread
   * messages to `u`; the senders listed are exactly those with unread
   * messages to `u`, and the counts add up to all of them.
   */
  ghost predicate PerSenderUnread(st: Store, u: UserId, r: seq<UnreadCount>) {
    var unread := Filter(st.messages, UnreadTo(u));
    && DistinctBy(r, SenderKey)
    && (forall i :: 0 <= i < |r| ==> r[i].count > 0)
    && (forall i :: 0 <= i < |r| ==> r[i].count == |Filter(st.messages, UnreadFromTo(r[i].senderId, u))|)
    && (forall x :: CountFor(r, x) == |Filter(st.messages, UnreadFromTo(x, u))|)
    && SendersOf(r) == (set m | m in unread :: m.senderId)
    && Total(r) == |unread|
  }

  /** `getUnreadCount(u)`: the tally over the unread messages addressed to `u`. */
  function GetUnreadCount(st: Store, u: UserId): (r: seq<UnreadCount>)
    ensures PerSenderUnread(st, u, r)
  {
    UnreadCountIsPerSenderTally(st, u);
    Tally(Filter(st.messages, UnreadTo(u)))
  }

  lemma {:induction false} UnreadFromSenderIsUnreadFromTo(ms: seq<Message>, u: UserId, x: UserId)
    ensures Filter(Filter(ms, UnreadTo(u)), FromSender(x)) == Filter(ms, UnreadFromTo(x, u))
  {
    if ms != [] {
      var init := ms[..|ms| - 1];
      var last := ms[|ms| - 1];
      UnreadFromSenderIsUnreadFromTo(init, u, x);
      var f := Filter(init, UnreadTo(u));
      assert Filter(ms, UnreadTo(u)) == f + (if UnreadTo(u)(last) then [last] else []);
      assert Filter(ms, UnreadFromTo(x, u)) == Filter(init, UnreadFromTo(x, u)) + (if UnreadFromTo(x, u)(last) then [last] else []);
      if UnreadTo(u)(last) {
        FilterSnoc(f, last, FromSender(x));
      } else {
        assert f + [] == f;
      }
    }
  }

  /** Tallying the unread messages to `u` counts, per sender, exactly its unread messages to `u`. */
  lemma UnreadCountIsPerSenderTally(st: Store, u: UserId)
    ensures PerSenderUnread(st, u, Tally(Filter(st.messages, UnreadTo(u))))
  {
    var r := Tally(Filter(st.messages, UnreadTo(u)));
    forall x
      ensures CountFor(r, x) == |Filter(st.messages, UnreadFromTo(x, u))|
    {
      UnreadFromSenderIsUnreadFromTo(st.messages, u, x);
    }
    forall i | 0 <= i < |r|
      ensures r[i].count == |Filter(st.messages, UnreadFromTo(r[i].senderId, u))|
    {
      CountForDistinct(r, i);
    }
  }

  // ---------------------------------------------------------------------
  // Chat list
  // ---------------------------------------------------------------------

  /** A `chatMap` entry: the counterpart and the latest message with them so far. */
  datatype Latest = Latest(otherId: UserId, last: Message)

  function OtherKey(e: Latest): UserId { e.otherId }

  function ForOther(o: UserId): Latest -> bool {
    (e: Latest) => e.otherId == o
  }

  function Involves(u: UserId): Message -> bool {
    (m: Message) => m.senderId == u || m.receiverId == u
  }

  /** The other party of a message that involves `u` (`u` itself for a note to self). */
  function Other(u: UserId, m: Message): UserId {
    if m.senderId == u then m.receiverId else m.senderId
  }

  ghost function OthersOf(es: seq<Latest>): set<UserId> {
    set e | e in es :: e.otherId
  }

  /**
   * One step of the `chatMap` loop: a new counterpart is appended; a known
   * one is replaced in place only by a strictly newer message.
   */
  function Upsert(es: seq<Latest>, u: UserId, m: Message): (r: seq<Latest>)
    ensures |r| >= |es|
  {
    var o := Other(u, m);
    match FindFirst(es, ForOther(o))
    case None => es + [Latest(o, m)]
    case Some(k) => if m.createdAt > es[k].last.createdAt then es[k := Latest(o, m)] else es
  }

  /** The whole `chatMap` loop over the messages involving `u`, in store order. */
  function Collect(u: UserId, ms: seq<Message>): (r: seq<Latest>)
    ensures DistinctBy(r, OtherKey)
    ensures forall j :: 0 <= j < |r| ==> r[j].last in ms && Other(u, r[j].last) == r[j].otherId
    ensures forall i, j :: 0 <= i < |ms| && 0 <= j < |r| && Other(u, ms[i]) == r[j].otherId ==>
      ms[i].createdAt <= r[j].last.createdAt
    ensures OthersOf(r) == set m | m in ms :: Other(u, m)
    ensures forall j :: 0 <= j < |r| ==> FirstOfNewest(u, ms, r[j])
    ensures forall i, j :: 0 <= i < j < |r| ==> MetBefore(u, ms, r[i].otherId, r[j].otherId)
  {
    if ms == [] then []
    else
      var init := ms[..|ms| - 1];
      var m := ms[|ms| - 1];
      var prev := Collect(u, init);
      assert ms == init + [m];
      UpsertStep(prev, u, init, m);
      UpsertTies(prev, u, init, m);
      UpsertOrder(prev, u, init, m);
      Upsert(prev, u, m)
  }

  /**
   * Some message with `a` is stored before every message with `b`: the
   * `chatMap` entry for `a` was created first.
   */
  ghost predicate MetBefore(u: UserId, ms: seq<Message>, a: UserId, b: UserId) {
    exists p :: 0 <= p < |ms| && Other(u, ms[p]) == a &&
      forall q :: 0 <= q <= p ==> Other(u, ms[q]) != b
  }

  /** Entries stay in the order their counterparts first appear: a `Map` keeps insertion order. */
  lemma UpsertOrder(prev: seq<Latest>, u: UserId, init: seq<Message>, m: Message)
    requires CollectFacts(prev, u, init)
    requires forall i, j :: 0 <= i < j < |prev| ==> MetBefore(u, init, prev[i].otherId, prev[j].otherId)
    ensures var r := Upsert(prev, u, m);
      forall i, j :: 0 <= i < j < |r| ==> MetBefore(u, init + [m], r[i].otherId, r[j].otherId)
  {
    OrderKeep(prev, u, init, m);
    match FindFirst(prev, ForOther(Other(u, m)))
    case None => OrderNew(prev, u, init, m);
    case Some(k) =>
  }

  lemma OrderKeep(prev: seq<Latest>, u: UserId, init: seq<Message>, m: Message)
    requires forall i, j :: 0 <= i < j < |prev| ==> MetBefore(u, init, prev[i].otherId, prev[j].otherId)
    ensures forall i, j :: 0 <= i < j < |prev| ==> MetBefore(u, init + [m], prev[i].otherId, prev[j].otherId)
  {
    forall i, j | 0 <= i < j < |prev|
      ensures MetBefore(u, init + [m], prev[i].otherId, prev[j].otherId)
    {
      MetCarry(u, init, m, prev[i].otherId, prev[j].otherId);
    }
  }

  lemma OrderNew(prev: seq<Latest>, u: UserId, init: seq<Message>, m: Message)
    requires CollectFacts(prev, u, init)
    requires forall i, j :: 0 <= i < j < |prev| ==> MetBefore(u, init + [m], prev[i].otherId, prev[j].otherId)
    requires FindFirst(prev, ForOther(Other(u, m))).None?
    ensures var r := prev + [Latest(Other(u, m), m)];
      forall i, j :: 0 <= i < j < |r| ==> MetBefore(u, init + [m], r[i].otherId, r[j].otherId)
  {
    var o := Other(u, m);
    var r := prev + [Latest(o, m)];
    forall i | 0 <= i < |prev|
      ensures MetBefore(u, init + [m], prev[i].otherId, o)
    {
      MetBeforeNew(prev, u, init, m, i);
    }
    forall i, j | 0 <= i < j < |r|
      ensures MetBefore(u, init + [m], r[i].otherId, r[j].otherId)
    {
      if j == |prev| {
        assert r[i] == prev[i];
      } else {
        assert r[i] == prev[i] && r[j] == prev[j];
      }
    }
  }

  /** A counterpart already in the map was met before a counterpart seen for the first time. */
  lemma MetBeforeNew(prev: seq<Latest>, u: UserId, init: seq<Message>, m: Message, i: nat)
    requires CollectFacts(prev, u, init)
    requires FindFirst(prev, ForOther(Other(u, m))).None?
    requires i < |prev|
    ensures MetBefore(u, init + [m], prev[i].otherId, Other(u, m))
  {
    var o := Other(u, m);
    var ms := init + [m];
    assert prev[i].otherId in OthersOf(prev);
    var x :| x in init && Other(u, x) == prev[i].otherId;
    var p :| 0 <= p < |init| && init[p] == x;
    forall q | 0 <= q <= p
      ensures Other(u, ms[q]) != o
    {
      assert ms[q] == init[q];
      assert Other(u, init[q]) in OthersOf(prev);
      var e :| e in prev && e.otherId == Other(u, init[q]);
      var z :| 0 <= z < |prev| && prev[z] == e;
      assert !ForOther(o)(prev[z]);
    }
    assert ms[p] == x;
  }

  lemma MetCarry(u: UserId, init: seq<Message>, m: Message, a: UserId, b: UserId)
    requires MetBefore(u, init, a, b)
    ensures MetBefore(u, init + [m], a, b)
  {
    var p :| 0 <= p < |init| && Other(u, init[p]) == a &&
      forall q :: 0 <= q <= p ==> Other(u, init[q]) != b;
    assert forall q :: 0 <= q <= p ==> (init + [m])[q] == init[q];
  }

  /**
   * `e.last` is stored at some position of `ms`, and every message with the
   * same counterpart stored before it is strictly older: among equally new
   * messages the entry keeps the first one stored.
   */
  ghost predicate FirstOfNewest(u: UserId, ms: seq<Message>, e: Latest) {
    exists w :: 0 <= w < |ms| && ms[w] == e.last &&
      forall i :: 0 <= i < w && Other(u, ms[i]) == e.otherId ==> ms[i].createdAt < e.last.createdAt
  }

  lemma UpsertTies(prev: seq<Latest>, u: UserId, init: seq<Message>, m: Message)
    requires CollectFacts(prev, u, init)
    requires forall j :: 0 <= j < |prev| ==> FirstOfNewest(u, init, prev[j])
    ensures forall j :: 0 <= j < |Upsert(prev, u, m)| ==> FirstOfNewest(u, init + [m], Upsert(prev, u, m)[j])
  {
    match FindFirst(prev, ForOther(Other(u, m)))
    case None => TiesNew(prev, u, init, m);
    case Some(k) =>
      if m.createdAt > prev[k].last.createdAt {
        TiesReplace(prev, u, init, m, k);
      } else {
        TiesKeep(prev, u, init, m);
      }
  }

  lemma TiesKeep(prev: seq<Latest>, u: UserId, init: seq<Message>, m: Message)
    requires forall j :: 0 <= j < |prev| ==> FirstOfNewest(u, init, prev[j])
    ensures forall j :: 0 <= j < |prev| ==> FirstOfNewest(u, init + [m], prev[j])
  {
    forall j | 0 <= j < |prev|
      ensures FirstOfNewest(u, init + [m], prev[j])
    {
      TiesCarry(u, init, m, prev[j]);
    }
  }

  lemma TiesNew(prev: seq<Latest>, u: UserId, init: seq<Message>, m: Message)
    requires CollectFacts(prev, u, init)
    requires forall j :: 0 <= j < |prev| ==> FirstOfNewest(u, init, prev[j])
    requires FindFirst(prev, ForOther(Other(u, m))).None?
    ensures var r := prev + [Latest(Other(u, m), m)];
      forall j :: 0 <= j < |r| ==> FirstOfNewest(u, init + [m], r[j])
  {
    var o := Other(u, m);
    TiesKeep(prev, u, init, m);
    forall i | 0 <= i < |init|
      ensures Other(u, init[i]) != o
    {
      assert Other(u, init[i]) in OthersOf(prev);
      var e :| e in prev && e.otherId == Other(u, init[i]);
      var q :| 0 <= q < |prev| && prev[q] == e;
      assert !ForOther(o)(prev[q]);
    }
    TiesLast(u, init, m);
  }

  lemma TiesReplace(prev: seq<Latest>, u: UserId, init: seq<Message>, m: Message, k: nat)
    requires CollectFacts(prev, u, init)
    requires forall j :: 0 <= j < |prev| ==> FirstOfNewest(u, init, prev[j])
    requires FindFirst(prev, ForOther(Other(u, m))) == Some(k)
    requires m.createdAt > prev[k].last.createdAt
    ensures var r := prev[k := Latest(Other(u, m), m)];
      forall j :: 0 <= j < |r| ==> FirstOfNewest(u, init + [m], r[j])
  {
    TiesKeep(prev, u, init, m);
    TiesLast(u, init, m);
  }

  /** An entry's witness in `init` still serves once a message is appended. */
  lemma TiesCarry(u: UserId, init: seq<Message>, m: Message, e: Latest)
    requires FirstOfNewest(u, init, e)
    ensures FirstOfNewest(u, init + [m], e)
  {
    var w :| 0 <= w < |init| && init[w] == e.last &&
      forall i :: 0 <= i < w && Other(u, init[i]) == e.otherId ==> init[i].createdAt < e.last.createdAt;
    assert forall i :: 0 <= i <= w ==> (init + [m])[i] == init[i];
  }

  /** A message strictly newer than all earlier ones with its counterpart is its own witness. */
  lemma TiesLast(u: UserId, init: seq<Message>, m: Message)
    requires forall i :: 0 <= i < |init| && Other(u, init[i]) == Other(u, m) ==> init[i].createdAt < m.createdAt
    ensures FirstOfNewest(u, init + [m], Latest(Other(u, m), m))
  {
    var ms := init + [m];
    assert ms[|init|] == m;
    assert forall i :: 0 <= i < |init| ==> ms[i] == init[i];
  }

  ghost predicate CollectFacts(r: seq<Latest>, u: UserId, ms: seq<Message>) {
    && DistinctBy(r, OtherKey)
    && (forall j :: 0 <= j < |r| ==> r[j].last in ms && Other(u, r[j].last) == r[j].otherId)
    && (forall i, j :: 0 <= i < |ms| && 0 <= j < |r| && Other(u, ms[i]) == r[j].otherId ==>
          ms[i].createdAt <= r[j].last.createdAt)
    && OthersOf(r) == set x | x in ms :: Other(u, x)
  }

  lemma UpsertStep(prev: seq<Latest>, u: UserId, init: seq<Message>, m: Message)
    requires CollectFacts(prev, u, init)
    ensures CollectFacts(Upsert(prev, u, m), u, init + [m])
  {
    OthersSnoc(u, init, m);
    match FindFirst(prev, ForOther(Other(u, m)))
    case None => UpsertNew(prev, u, init, m);
    case Some(k) =>
      if m.createdAt > prev[k].last.createdAt {
        UpsertReplace(prev, u, init, m, k);
      } else {
        UpsertKeep(prev, u, init, m, k);
      }
  }

  lemma OthersSnoc(u: UserId, init: seq<Message>, m: Message)
    ensures (set x | x in init + [m] :: Other(u, x)) == (set x | x in init :: Other(u, x)) + {Other(u, m)}
  {
  }

  /** A first message with a new counterpart appends an entry. */
  lemma UpsertNew(prev: seq<Latest>, u: UserId, init: seq<Message>, m: Message)
    requires CollectFacts(prev, u, init)
    requires FindFirst(prev, ForOther(Other(u, m))).None?
    ensures CollectFacts(prev + [Latest(Other(u, m), m)], u, init + [m])
  {
    var ms := init + [m];
    var o := Other(u, m);
    var r := prev + [Latest(o, m)];
    OthersSnoc(u, init, m);
    AppendKeepsDistinct(prev, Latest(o, m), OtherKey);
    forall q | 0 <= q < |prev|
      ensures prev[q].otherId != o
    {
      assert !ForOther(o)(prev[q]);
    }
    forall i, j | 0 <= i < |ms| && 0 <= j < |r| && Other(u, ms[i]) == r[j].otherId
      ensures ms[i].createdAt <= r[j].last.createdAt
    {
      if i < |init| {
        assert ms[i] == init[i];
        assert Other(u, init[i]) in OthersOf(prev);
      }
    }
  }

  /** A strictly newer message replaces the counterpart's entry in place. */
  lemma UpsertReplace(prev: seq<Latest>, u: UserId, init: seq<Message>, m: Message, k: nat)
    requires CollectFacts(prev, u, init)
    requires FindFirst(prev, ForOther(Other(u, m))) == Some(k)
    requires m.createdAt > prev[k].last.createdAt
    ensures CollectFacts(prev[k := Latest(Other(u, m), m)], u, init + [m])
  {
    var ms := init + [m];
    var o := Other(u, m);
    var r := prev[k := Latest(o, m)];
    OthersSnoc(u, init, m);
    UpdateKeepsDistinct(prev, k, Latest(o, m), OtherKey);
    SameOthers(prev, k, Latest(o, m));
    forall i, j | 0 <= i < |ms| && 0 <= j < |r| && Other(u, ms[i]) == r[j].otherId
      ensures ms[i].createdAt <= r[j].last.createdAt
    {
      ReplacedIsNewest(prev, u, init, m, k, i, j);
    }
  }

  lemma ReplacedIsNewest(prev: seq<Latest>, u: UserId, init: seq<Message>, m: Message, k: nat, i: nat, j: nat)
    requires CollectFacts(prev, u, init)
    requires k < |prev| && prev[k].otherId == Other(u, m)
    requires m.createdAt > prev[k].last.createdAt
    requires i < |init| + 1 && j < |prev|
    requires Other(u, (init + [m])[i]) == prev[k := Latest(Other(u, m), m)][j].otherId
    ensures (init + [m])[i].createdAt <= prev[k := Latest(Other(u, m), m)][j].last.createdAt
  {
    var ms := init + [m];
    DistinctAt(prev, OtherKey, k);
    if i < |init| {
      assert ms[i] == init[i];
      if j == k {
        assert Other(u, init[i]) == prev[k].otherId;
      }
    }
  }

  /** An older or equally old message leaves the entries unchanged. */
  lemma UpsertKeep(prev: seq<Latest>, u: UserId, init: seq<Message>, m: Message, k: nat)
    requires CollectFacts(prev, u, init)
    requires FindFirst(prev, ForOther(Other(u, m))) == Some(k)
    requires m.createdAt <= prev[k].last.createdAt
    ensures CollectFacts(prev, u, init + [m])
  {
    var ms := init + [m];
    OthersSnoc(u, init, m);
    DistinctAt(prev, OtherKey, k);
    forall i, j | 0 <= i < |ms| && 0 <= j < |prev| && Other(u, ms[i]) == prev[j].otherId
      ensures ms[i].createdAt <= prev[j].last.createdAt
    {
      if i < |init| {
        assert ms[i] == init[i];
      }
    }
  }

  /** Replacing an entry by one for the same counterpart keeps the set of counterparts. */
  lemma SameOthers(es: seq<Latest>, k: nat, e': Latest)
    requires k < |es| && e'.otherId == es[k].otherId
    ensures OthersOf(es[k := e']) == OthersOf(es)
  {
    var r := es[k := e'];
    forall y | y in OthersOf(r)
      ensures y in OthersOf(es)
    {
      var e :| e in r && e.otherId == y;
      var j :| 0 <= j < |r| && r[j] == e;
      assert es[j].otherId == y;
    }
    forall y | y in OthersOf(es)
      ensures y in OthersOf(r)
    {
      var e :| e in es && e.otherId == y;
      var j :| 0 <= j < |es| && es[j] == e;
      assert r[j].otherId == y;
    }
  }

  /** One row of `getChatList`. */
  datatype ChatEntry = ChatEntry(
    id: UserId,
    username: string,
    email: string,
    lastMessage: string,
    lastMessageTime: Timestamp,
    isSent: bool,
    unreadCount: nat)

  function EntryTime(e: ChatEntry): int { e.lastMessageTime }
  function EntryId(e: ChatEntry): UserId { e.id }

  /** The error `getChatList` throws when a counterpart has no account (`user.id` of `null`). */
  const MissingUserError: string := "Cannot read properties of null (reading 'id')"

  /** The row built for one `chatMap` entry; `None` when the counterpart has no account. */
  function Row(st: Store, u: UserId, e: Latest): Option<ChatEntry> {
    match GetUserById(st, e.otherId)
    case None => None
    case Some(p) =>
      Some(ChatEntry(p.id, p.username, p.email, e.last.body, e.last.createdAt,
                     e.last.senderId == u, |Filter(st.messages, UnreadFromTo(e.otherId, u))|))
  }

  /** The `map` over the `chatMap` entries; fails as soon as one counterpart has no account. */
  function Rows(st: Store, u: UserId, es: seq<Latest>): (r: Option<seq<ChatEntry>>)
    ensures r.Some? <==> forall i :: 0 <= i < |es| ==> Row(st, u, es[i]).Some?
    ensures r.Some? ==> |r.value| == |es| && forall i :: 0 <= i < |es| ==> Row(st, u, es[i]) == Some(r.value[i])
  {
    var rows := seq(|es|, i requires 0 <= i < |es| => Row(st, u, es[i]));
    assert forall i :: 0 <= i < |es| ==> rows[i] == Row(st, u, es[i]);
    AllSome(rows)
  }

  /** The counterparts of `u`: everyone `u` exchanged at least one message with. */
  ghost function Counterparts(st: Store, u: UserId): set<UserId> {
    set m | m in st.messages && Involves(u)(m) :: Other(u, m)
  }

  /** Some counterpart of `u` has no account. */
  ghost predicate CounterpartMissing(st: Store, u: UserId) {
    exists o :: o in Counterparts(st, u) && !UserIdTaken(st, o)
  }

  /** The facts every row of the chat list satisfies. */
  ghost predicate ChatRowFacts(st: Store, u: UserId, e: ChatEntry) {
    && GetUserById(st, e.id) == Some(Profile(e.id, e.username, e.email))
    && e.unreadCount == |Filter(st.messages, UnreadFromTo(e.id, u))|
    && (exists w :: ShownAt(st, u, e, w))
    && (forall m :: m in st.messages && Involves(u)(m) && Other(u, m) == e.id ==> m.createdAt <= e.lastMessageTime)
  }

  /**
   * Row `e` shows the message stored at position `w`, and every message
   * between `u` and the row's counterpart stored before it is strictly
   * older: a later message with the same timestamp does not displace it.
   */
  ghost predicate ShownAt(st: Store, u: UserId, e: ChatEntry, w: int) {
    && 0 <= w < |st.messages|
    && var m := st.messages[w];
    && Involves(u)(m) && Other(u, m) == e.id
    && m.body == e.lastMessage && m.createdAt == e.lastMessageTime && e.isSent == (m.senderId == u)
    && (forall i :: 0 <= i < w && Involves(u)(st.messages[i]) && Other(u, st.messages[i]) == e.id ==>
          st.messages[i].createdAt < e.lastMessageTime)
  }

  /** `u`'s first stored message with `a` comes before its first stored message with `b`. */
  ghost predicate FirstContactBefore(st: Store, u: UserId, a: UserId, b: UserId) {
    exists p :: 0 <= p < |st.messages| && Involves(u)(st.messages[p]) && Other(u, st.messages[p]) == a &&
      forall q :: 0 <= q <= p && Involves(u)(st.messages[q]) ==> Other(u, st.messages[q]) != b
  }

  /**
   * `rows` has one row per counterpart of `u` and no other; each row carries
   * the counterpart's account, that pair's newest message and the number of
   * unread messages from the counterpart to `u`; rows are newest first, and
   * rows with the same time keep the `chatMap` insertion order, that is the
   * order of `u`'s first message with each counterpart.
   */
  ghost predicate LatestPerCounterpart(st: Store, u: UserId, rows: seq<ChatEntry>) {
    && NonIncreasing(rows, EntryTime)
    && (forall i, j :: 0 <= i < j < |rows| && rows[i].lastMessageTime == rows[j].lastMessageTime ==>
          FirstContactBefore(st, u, rows[i].id, rows[j].id))
    && DistinctBy(rows, EntryId)
    && (set e | e in rows :: e.id) == Counterparts(st, u)
    && (forall i :: 0 <= i < |rows| ==> ChatRowFacts(st, u, rows[i]))
  }

  /**
   * `getChatList(u)`: the latest message per counterpart of `u`, joined with
   * the counterpart's account and unread count, sorted newest first. It
   * throws exactly when some counterpart has no account.
   */
  function GetChatList(st: Store, u: UserId): (r: Result<seq<ChatEntry>, string>)
    ensures r.Err? <==> CounterpartMissing(st, u)
    ensures r.Err? ==> r.error == MissingUserError
    ensures r.Ok? ==> LatestPerCounterpart(st, u, r.value)
  {
    var involved := Filter(st.messages, Involves(u));
    var latest := Collect(u, involved);
    ChatMap(st, u, involved, latest);
    RowsMissingIff(st, u, latest);
    match Rows(st, u, latest)
    case None => Err(MissingUserError)
    case Some(rows) =>
      var sorted := SortDesc(rows, EntryTime);
      ChatListRows(st, u, involved, latest, rows, sorted);
      Ok(sorted)
  }

  /** The `chatMap` `getChatList` builds covers exactly the counterparts of `u`. */
  lemma ChatMap(st: Store, u: UserId, involved: seq<Message>, latest: seq<Latest>)
    requires involved == Filter(st.messages, Involves(u))
    requires latest == Collect(u, involved)
    ensures OthersOf(latest) == Counterparts(st, u)
  {
    InvolvedOthers(st, u, involved);
  }

  lemma InvolvedOthers(st: Store, u: UserId, involved: seq<Message>)
    requires involved == Filter(st.messages, Involves(u))
    ensures (set m | m in involved :: Other(u, m)) == Counterparts(st, u)
  {
  }

  lemma RowMissingIff(st: Store, u: UserId, e: Latest)
    ensures Row(st, u, e).None? <==> !UserIdTaken(st, e.otherId)
  {
  }

  /** Building the rows fails exactly when some entry's counterpart has no account. */
  lemma RowsMissingIff(st: Store, u: UserId, latest: seq<Latest>)
    ensures Rows(st, u, latest).None? <==> exists o :: o in OthersOf(latest) && !UserIdTaken(st, o)
  {
    if Rows(st, u, latest).None? {
      var i :| 0 <= i < |latest| && Row(st, u, latest[i]).None?;
      RowMissingIff(st, u, latest[i]);
      assert latest[i].otherId in OthersOf(latest);
    } else {
      forall o | o in OthersOf(latest)
        ensures UserIdTaken(st, o)
      {
        var e :| e in latest && e.otherId == o;
        var i :| 0 <= i < |latest| && latest[i] == e;
        RowMissingIff(st, u, latest[i]);
      }
    }
  }

  /** Sorting the rows built from the `chatMap` gives one newest row per counterpart. */
  lemma ChatListRows(st: Store, u: UserId, involved: seq<Message>, latest: seq<Latest>,
                     rows: seq<ChatEntry>, sorted: seq<ChatEntry>)
    requires involved == Filter(st.messages, Involves(u))
    requires latest == Collect(u, involved)
    requires OthersOf(latest) == Counterparts(st, u)
    requires Rows(st, u, latest) == Some(rows)
    requires sorted == SortDesc(rows, EntryTime)
    ensures LatestPerCounterpart(st, u, sorted)
  {
    RowsFacts(st, u, involved, latest, rows);
    SortedRows(rows, sorted);
    SortedRowFacts(st, u, rows, sorted);
    RowsInOrder(st, u, involved, latest, rows);
    SortedTies(st, u, rows, sorted);
  }

  /** Before sorting, the rows follow the order in which `u` first met each counterpart. */
  lemma RowsInOrder(st: Store, u: UserId, involved: seq<Message>, latest: seq<Latest>, rows: seq<ChatEntry>)
    requires involved == Filter(st.messages, Involves(u))
    requires latest == Collect(u, involved)
    requires Rows(st, u, latest) == Some(rows)
    ensures forall i, j :: 0 <= i < j < |rows| ==> FirstContactBefore(st, u, rows[i].id, rows[j].id)
  {
    forall i, j | 0 <= i < j < |rows|
      ensures FirstContactBefore(st, u, rows[i].id, rows[j].id)
    {
      assert Row(st, u, latest[i]) == Some(rows[i]);
      assert Row(st, u, latest[j]) == Some(rows[j]);
      MetInStore(st, u, involved, latest[i].otherId, latest[j].otherId);
    }
  }

  /** Meeting `a` before `b` among `u`'s messages is meeting them in that order in the store. */
  lemma MetInStore(st: Store, u: UserId, involved: seq<Message>, a: UserId, b: UserId)
    requires involved == Filter(st.messages, Involves(u))
    requires MetBefore(u, involved, a, b)
    ensures FirstContactBefore(st, u, a, b)
  {
    var p :| 0 <= p < |involved| && Other(u, involved[p]) == a &&
      forall q :: 0 <= q <= p ==> Other(u, involved[q]) != b;
    var pos := FilterPosition(st.messages, Involves(u), p);
    MetAt(st, u, involved, a, b, p, pos);
  }

  lemma MetAt(st: Store, u: UserId, involved: seq<Message>, a: UserId, b: UserId, p: nat, pos: nat)
    requires p < |involved| && Other(u, involved[p]) == a
    requires forall q :: 0 <= q <= p ==> Other(u, involved[q]) != b
    requires pos < |st.messages| && st.messages[pos] == involved[p] && Involves(u)(st.messages[pos])
    requires forall k :: 0 <= k < pos && Involves(u)(st.messages[k]) ==>
      exists q :: 0 <= q < p && involved[q] == st.messages[k]
    ensures FirstContactBefore(st, u, a, b)
  {
    forall q | 0 <= q <= pos && Involves(u)(st.messages[q])
      ensures Other(u, st.messages[q]) != b
    {
      if q < pos {
        var q' :| 0 <= q' < p && involved[q'] == st.messages[q];
      }
    }
  }

  /** The stable sort keeps equal-time rows in their order before sorting. */
  lemma SortedTies(st: Store, u: UserId, rows: seq<ChatEntry>, sorted: seq<ChatEntry>)
    requires sorted == SortDesc(rows, EntryTime)
    requires forall i, j :: 0 <= i < j < |rows| ==> FirstContactBefore(st, u, rows[i].id, rows[j].id)
    ensures forall i, j :: 0 <= i < j < |sorted| && sorted[i].lastMessageTime == sorted[j].lastMessageTime ==>
      FirstContactBefore(st, u, sorted[i].id, sorted[j].id)
  {
    forall i, j | 0 <= i < j < |sorted| && sorted[i].lastMessageTime == sorted[j].lastMessageTime
      ensures FirstContactBefore(st, u, sorted[i].id, sorted[j].id)
    {
      var i', j' := SortKeepsOrder(rows, EntryTime, i, j);
    }
  }

  /** What the rows built from the `chatMap` satisfy before sorting. */
  lemma RowsFacts(st: Store, u: UserId, involved: seq<Message>, latest: seq<Latest>, rows: seq<ChatEntry>)
    requires involved == Filter(st.messages, Involves(u))
    requires latest == Collect(u, involved)
    requires OthersOf(latest) == Counterparts(st, u)
    requires Rows(st, u, latest) == Some(rows)
    ensures DistinctBy(rows, EntryId)
    ensures (set e | e in rows :: e.id) == Counterparts(st, u)
    ensures forall i :: 0 <= i < |rows| ==> ChatRowFacts(st, u, rows[i])
  {
    forall i | 0 <= i < |rows|
      ensures ChatRowFacts(st, u, rows[i])
    {
      RowFacts(st, u, involved, latest, i, rows[i]);
    }
    RowIds(st, u, latest, rows);
  }

  lemma RowIds(st: Store, u: UserId, latest: seq<Latest>, rows: seq<ChatEntry>)
    requires DistinctBy(latest, OtherKey)
    requires Rows(st, u, latest) == Some(rows)
    ensures DistinctBy(rows, EntryId)
    ensures (set e | e in rows :: e.id) == OthersOf(latest)
  {
    forall i | 0 <= i < |rows|
      ensures rows[i].id == latest[i].otherId
    {
      assert Row(st, u, latest[i]) == Some(rows[i]);
    }
    forall i, j | 0 <= i < j < |rows|
      ensures EntryId(rows[i]) != EntryId(rows[j])
    {
      assert OtherKey(latest[i]) != OtherKey(latest[j]);
    }
    forall o | o in OthersOf(latest)
      ensures o in (set e | e in rows :: e.id)
    {
      var x :| x in latest && x.otherId == o;
      var i :| 0 <= i < |latest| && latest[i] == x;
      assert rows[i] in rows;
    }
  }

  lemma SortedRowFacts(st: Store, u: UserId, rows: seq<ChatEntry>, sorted: seq<ChatEntry>)
    requires forall i :: 0 <= i < |rows| ==> ChatRowFacts(st, u, rows[i])
    requires forall e :: e in sorted <==> e in rows
    ensures forall i :: 0 <= i < |sorted| ==> ChatRowFacts(st, u, sorted[i])
  {
    forall i | 0 <= i < |sorted|
      ensures ChatRowFacts(st, u, sorted[i])
    {
      assert sorted[i] in rows;
      var j :| 0 <= j < |rows| && rows[j] == sorted[i];
    }
  }

  /** Sorting the rows newest first keeps the facts that hold of each row and of the whole set. */
  lemma SortedRows(rows: seq<ChatEntry>, sorted: seq<ChatEntry>)
    requires sorted == SortDesc(rows, EntryTime)
    requires DistinctBy(rows, EntryId)
    ensures NonIncreasing(sorted, EntryTime)
    ensures DistinctBy(sorted, EntryId)
    ensures forall e :: e in sorted <==> e in rows
    ensures (set e | e in sorted :: e.id) == (set e | e in rows :: e.id)
  {
    SortKeepsDistinct(rows, EntryTime, EntryId);
    forall e
      ensures e in sorted <==> e in rows
    {
      SortSameElements(rows, EntryTime, e);
    }
  }

  lemma RowFacts(st: Store, u: UserId, involved: seq<Message>, latest: seq<Latest>, i: nat, row: ChatEntry)
    requires involved == Filter(st.messages, Involves(u))
    requires latest == Collect(u, involved)
    requires i < |latest| && Row(st, u, latest[i]) == Some(row)
    ensures row.id == latest[i].otherId
    ensures ChatRowFacts(st, u, row)
  {
    var e := latest[i];
    var m := e.last;
    assert m in involved;
    forall m' | m' in st.messages && Involves(u)(m') && Other(u, m') == row.id
      ensures m'.createdAt <= row.lastMessageTime
    {
      var q :| 0 <= q < |involved| && involved[q] == m';
    }
    var p := GetUserById(st, e.otherId).value;
    assert p == Profile(row.id, row.username, row.email);
    RowShownAt(st, u, involved, e, row);
  }

  /** The store position of the message a row shows. */
  lemma RowShownAt(st: Store, u: UserId, involved: seq<Message>, e: Latest, row: ChatEntry)
    requires involved == Filter(st.messages, Involves(u))
    requires FirstOfNewest(u, involved, e)
    requires Other(u, e.last) == e.otherId && row.id == e.otherId
    requires row.lastMessage == e.last.body && row.lastMessageTime == e.last.createdAt
    requires row.isSent == (e.last.senderId == u)
    ensures exists w :: ShownAt(st, u, row, w)
  {
    var w :| 0 <= w < |involved| && involved[w] == e.last &&
      forall i :: 0 <= i < w && Other(u, involved[i]) == e.otherId ==> involved[i].createdAt < e.last.createdAt;
    var pos := FilterPosition(st.messages, Involves(u), w);
    forall k | 0 <= k < pos && Involves(u)(st.messages[k]) && Other(u, st.messages[k]) == row.id
      ensures st.messages[k].createdAt < row.lastMessageTime
    {
      var q :| 0 <= q < w && involved[q] == st.messages[k];
    }
    assert ShownAt(st, u, row, pos);
  }
}
