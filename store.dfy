/**
 The conversation store and the read tracker, as values: `conversations` maps
 a canonical pair of ids to its ordered message log, and `user_seen` maps a
 viewer and a pair to the number of leading messages that viewer has seen.
 The class in ChatApp holds these maps and updates them as described here.
 */
module Store {
  import opened Base
  import opened Text
  import opened Directory

  /** A conversation key: the two ids of a pair, as Python's `tuple(sorted(...))`. */
  datatype Key = Key(first: UserId, second: UserId)

  /** One stored entry of a log. */
  datatype Message = Message(sender: UserId, recipient: UserId, originalText: string, translatedText: string)

  type Log = seq<Message>
  type Conversations = map<Key, Log>
  type SeenMarks = map<UserId, map<Key, int>>

  /** The canonical key of a pair: the two ids in ascending string order. */
  function ConversationKey(a: UserId, b: UserId): (k: Key)
    ensures !Less(k.second, k.first)
    ensures (k.first == a && k.second == b) || (k.first == b && k.second == a)
  {
    if Less(b, a) then LessAsymmetric(b, a); Key(b, a) else Key(a, b)
  }

  /** Either argument order gives the same key, so both participants reach the same log. */
  lemma KeySymmetric(a: UserId, b: UserId)
    ensures ConversationKey(a, b) == ConversationKey(b, a)
  {
    LessTrichotomy(a, b);
    LessAsymmetric(a, b);
  }

  /** Two pairs share a key exactly when they are the same unordered pair. */
  lemma KeyIdentifiesPair(a: UserId, b: UserId, c: UserId, d: UserId)
    ensures ConversationKey(a, b) == ConversationKey(c, d) <==>
              (a == c && b == d) || (a == d && b == c)
  {
    KeySymmetric(a, b);
    KeySymmetric(c, d);
  }

  /** Python's `user in key`. */
  predicate Involves(k: Key, u: UserId) {
    k.first == u || k.second == u
  }

  /** `conversations.get(key, [])`. */
  function LogOf(cs: Conversations, k: Key): Log {
    if k in cs then cs[k] else []
  }

  /** `ensure_user_seen(v)` read without creating the row. */
  function SeenRow(seen: SeenMarks, v: UserId): map<Key, int> {
    if v in seen then seen[v] else map[]
  }

  /** `ensure_user_seen(v).get(key, 0)`. */
  function SeenMark(seen: SeenMarks, v: UserId, k: Key): int {
    if k in SeenRow(seen, v) then SeenRow(seen, v)[k] else 0
  }

  /** The read-tracking invariant: every seen mark lies between zero and the
      current length of its log. */
  ghost predicate SeenBounded(cs: Conversations, seen: SeenMarks) {
    forall v, k {:trigger seen[v][k]} :: v in seen && k in seen[v] ==> 0 <= seen[v][k] <= |LogOf(cs, k)|
  }

  /** Every stored log is non-empty, is stored under the key of each of its
      entries, and mentions only registered users. */
  ghost predicate LogsWellFormed(cs: Conversations, users: Users) {
    forall k :: k in cs ==>
      && |cs[k]| > 0
      && forall i :: 0 <= i < |cs[k]| ==>
           && ConversationKey(cs[k][i].sender, cs[k][i].recipient) == k
           && cs[k][i].sender in users && cs[k][i].recipient in users
  }

  /** `unread_count(u, p)`: the log length less the viewer's seen mark, clamped
      at zero. Under the read-tracking invariant the clamp never applies. */
  function UnreadCount(cs: Conversations, seen: SeenMarks, u: UserId, p: UserId): (n: int)
    ensures n >= 0
    ensures SeenBounded(cs, seen) ==>
              var k := ConversationKey(u, p);
              n == |LogOf(cs, k)| - SeenMark(seen, u, k) && n <= |LogOf(cs, k)|
  {
    var k := ConversationKey(u, p);
    var total := |LogOf(cs, k)|;
    var s := SeenMark(seen, u, k);
    if total - s > 0 then total - s else 0
  }

  /** The logs after `save_message` appended `m`. */
  function WithEntry(cs: Conversations, m: Message): Conversations {
    var k := ConversationKey(m.sender, m.recipient);
    cs[k := LogOf(cs, k) + [m]]
  }

  /** The seen marks after `ensure_user_seen(v)[k] = n`. */
  function WithMark(seen: SeenMarks, v: UserId, k: Key, n: int): SeenMarks {
    seen[v := SeenRow(seen, v)[k := n]]
  }

  /** The seen marks after `ensure_user_seen(u)`. */
  function WithRow(seen: SeenMarks, u: UserId): SeenMarks {
    if u in seen then seen else seen[u := map[]]
  }

  /** The seen marks after `mark_conversation_seen(v, p)`. */
  function MarkedSeen(cs: Conversations, seen: SeenMarks, v: UserId, p: UserId): SeenMarks {
    var k := ConversationKey(v, p);
    WithMark(seen, v, k, |LogOf(cs, k)|)
  }

  /** The seen marks after `save_message` appended `m` to `cs`: the sender is
      caught up to the new length. */
  function SenderCaughtUp(cs: Conversations, seen: SeenMarks, m: Message): SeenMarks {
    var k := ConversationKey(m.sender, m.recipient);
    WithMark(seen, m.sender, k, |LogOf(cs, k)| + 1)
  }

  /** Saving appends exactly `m` to the log of its pair, whichever order the pair
      is named in, creates that log when it was absent, and leaves every other
      log as it was. */
  lemma {:induction false} SaveAppendsExactlyOne(cs: Conversations, m: Message)
    ensures var k := ConversationKey(m.sender, m.recipient);
      && k in WithEntry(cs, m)
      && LogOf(WithEntry(cs, m), k) == LogOf(cs, k) + [m]
      && LogOf(WithEntry(cs, m), ConversationKey(m.recipient, m.sender)) == LogOf(cs, k) + [m]
      && (forall k' :: k' != k ==> LogOf(WithEntry(cs, m), k') == LogOf(cs, k'))
  {
    KeySymmetric(m.sender, m.recipient);
  }

  /** Logs are append-only: every log before a save is a prefix of the same
      log after it. */
  lemma LogsOnlyGrow(cs: Conversations, m: Message, k: Key)
    ensures LogOf(cs, k) <= LogOf(WithEntry(cs, m), k)
    ensures |LogOf(WithEntry(cs, m), k)| <= |LogOf(cs, k)| + 1
  {
  }

  /** Saving (append, then catch the sender up) keeps the read-tracking invariant. */
  lemma SaveKeepsSeenBounded(cs: Conversations, seen: SeenMarks, m: Message)
    requires SeenBounded(cs, seen)
    ensures SeenBounded(WithEntry(cs, m), SenderCaughtUp(cs, seen, m))
  {
    var k := ConversationKey(m.sender, m.recipient);
    var cs', seen' := WithEntry(cs, m), SenderCaughtUp(cs, seen, m);
    forall v, k' | v in seen' && k' in seen'[v]
      ensures 0 <= seen'[v][k'] <= |LogOf(cs', k')|
    {
      LogsOnlyGrow(cs, m, k');
      if v != m.sender || k' != k {
        assert k' in SeenRow(seen, v) && seen'[v][k'] == SeenRow(seen, v)[k'];
      }
    }
  }

  /** Saving keeps the logs well formed when both participants are registered. */
  lemma SaveKeepsLogsWellFormed(cs: Conversations, users: Users, m: Message)
    requires LogsWellFormed(cs, users)
    requires m.sender in users && m.recipient in users
    ensures LogsWellFormed(WithEntry(cs, m), users)
  {
    var k := ConversationKey(m.sender, m.recipient);
    var log := LogOf(cs, k) + [m];
    forall i | 0 <= i < |log|
      ensures ConversationKey(log[i].sender, log[i].recipient) == k
      ensures log[i].sender in users && log[i].recipient in users
    {
      if i < |LogOf(cs, k)| { assert log[i] == cs[k][i]; }
    }
  }

  /** After saving, the sender has nothing unread in that conversation. */
  lemma SaveCatchesUpSender(cs: Conversations, seen: SeenMarks, m: Message)
    ensures UnreadCount(WithEntry(cs, m), SenderCaughtUp(cs, seen, m), m.sender, m.recipient) == 0
  {
  }

  /** After saving, the recipient has exactly one more unread message from the
      sender, and no count of any other pair changes. */
  lemma SaveAddsOneUnreadForRecipient(cs: Conversations, seen: SeenMarks, m: Message)
    requires SeenBounded(cs, seen)
    requires m.sender != m.recipient
    ensures UnreadCount(WithEntry(cs, m), SenderCaughtUp(cs, seen, m), m.recipient, m.sender)
            == UnreadCount(cs, seen, m.recipient, m.sender) + 1
    ensures forall u, p :: ConversationKey(u, p) != ConversationKey(m.sender, m.recipient) ==>
              UnreadCount(WithEntry(cs, m), SenderCaughtUp(cs, seen, m), u, p) == UnreadCount(cs, seen, u, p)
  {
    SaveKeepsSeenBounded(cs, seen, m);
    SaveAppendsExactlyOne(cs, m);
    KeySymmetric(m.sender, m.recipient);
  }

  /** After `mark_conversation_seen(v, p)` the viewer has nothing unread in that pair. */
  lemma MarkSeenClearsUnread(cs: Conversations, seen: SeenMarks, v: UserId, p: UserId)
    ensures UnreadCount(cs, MarkedSeen(cs, seen, v, p), v, p) == 0
  {
  }

  /** Marking as seen twice, with nothing appended in between, leaves the same
      seen marks as marking once. */
  lemma MarkSeenIdempotent(cs: Conversations, seen: SeenMarks, v: UserId, p: UserId)
    ensures MarkedSeen(cs, MarkedSeen(cs, seen, v, p), v, p) == MarkedSeen(cs, seen, v, p)
  {
    var k := ConversationKey(v, p);
    var once := MarkedSeen(cs, seen, v, p);
    assert SeenRow(once, v)[k := |LogOf(cs, k)|] == SeenRow(once, v);
  }

  /** A seen mark never decreases when the viewer marks a pair as seen. */
  lemma MarkSeenNeverLowers(cs: Conversations, seen: SeenMarks, v: UserId, p: UserId)
    requires SeenBounded(cs, seen)
    ensures forall u, k :: SeenMark(MarkedSeen(cs, seen, v, p), u, k) >= SeenMark(seen, u, k)
  {
    forall u, k ensures SeenMark(MarkedSeen(cs, seen, v, p), u, k) >= SeenMark(seen, u, k) {
      if k in SeenRow(seen, u) { assert SeenRow(seen, u)[k] == seen[u][k]; }
    }
  }

  /** A seen mark never decreases when a message is saved. */
  lemma SaveNeverLowersSeen(cs: Conversations, seen: SeenMarks, m: Message)
    requires SeenBounded(cs, seen)
    ensures forall u, k :: SeenMark(SenderCaughtUp(cs, seen, m), u, k) >= SeenMark(seen, u, k)
  {
    forall u, k ensures SeenMark(SenderCaughtUp(cs, seen, m), u, k) >= SeenMark(seen, u, k) {
      if k in SeenRow(seen, u) { assert SeenRow(seen, u)[k] == seen[u][k]; }
    }
  }

  /** Marking as seen keeps the read-tracking invariant, and changes no count
      but the viewer's own for that pair. */
  lemma MarkSeenKeepsSeenBounded(cs: Conversations, seen: SeenMarks, v: UserId, p: UserId)
    requires SeenBounded(cs, seen)
    ensures SeenBounded(cs, MarkedSeen(cs, seen, v, p))
    ensures forall u, q :: u != v || ConversationKey(u, q) != ConversationKey(v, p) ==>
              UnreadCount(cs, MarkedSeen(cs, seen, v, p), u, q) == UnreadCount(cs, seen, u, q)
  {
    var k := ConversationKey(v, p);
    var seen' := MarkedSeen(cs, seen, v, p);
    forall u, k' | u in seen' && k' in seen'[u]
      ensures 0 <= seen'[u][k'] <= |LogOf(cs, k')|
    {
      if u != v || k' != k {
        assert u in seen && k' in seen[u] && seen'[u][k'] == seen[u][k'];
      } else {
        assert seen'[u][k'] == |LogOf(cs, k)|;
      }
    }
  }

  /** Creating an empty seen row (what `ensure_user_seen` does on first use)
      changes no seen mark, so no unread count and not the invariant. */
  lemma EmptyRowInvisible(cs: Conversations, seen: SeenMarks, u: UserId)
    ensures forall v, k :: SeenMark(WithRow(seen, u), v, k) == SeenMark(seen, v, k)
    ensures forall v, p :: UnreadCount(cs, WithRow(seen, u), v, p) == UnreadCount(cs, seen, v, p)
    ensures SeenBounded(cs, seen) ==> SeenBounded(cs, WithRow(seen, u))
  {
  }

  /** Registering or updating users never unregisters anyone, so the logs stay
      well formed. */
  lemma LogsKeepRegisteredUsers(cs: Conversations, before: Users, after: Users)
    requires LogsWellFormed(cs, before)
    requires before.Keys <= after.Keys
    ensures LogsWellFormed(cs, after)
  {
  }

  /** `order` lists the keys of `m` in insertion order, each once. */
  ghost predicate ListsKeys<K(!new), V>(order: seq<K>, m: map<K, V>) {
    NoDuplicates(order) && forall x :: x in order <==> x in m
  }

  /** The invariant of the whole store: both order lists match their
      dictionaries, the directory and the logs are well formed, and every seen
      mark lies within its log. */
  ghost predicate StoreValid(users: Users, userOrder: seq<UserId>, cs: Conversations,
                             csOrder: seq<Key>, seen: SeenMarks) {
    && ListsKeys(userOrder, users)
    && ListsKeys(csOrder, cs)
    && DirectoryValid(users)
    && LogsWellFormed(cs, users)
    && SeenBounded(cs, seen)
  }

  /** The order of conversation keys after `conversations.setdefault(k, [])`. */
  function OrderWith(csOrder: seq<Key>, cs: Conversations, k: Key): seq<Key> {
    if k in cs then csOrder else csOrder + [k]
  }

  /** `save_message` keeps the store invariant when both participants are
      registered. */
  lemma SaveKeepsStoreValid(users: Users, userOrder: seq<UserId>, cs: Conversations,
                            csOrder: seq<Key>, seen: SeenMarks, m: Message)
    requires StoreValid(users, userOrder, cs, csOrder, seen)
    requires m.sender in users && m.recipient in users
    ensures StoreValid(users, userOrder, WithEntry(cs, m),
                       OrderWith(csOrder, cs, ConversationKey(m.sender, m.recipient)),
                       SenderCaughtUp(cs, seen, m))
  {
    var k := ConversationKey(m.sender, m.recipient);
    SaveKeepsSeenBounded(cs, seen, m);
    SaveKeepsLogsWellFormed(cs, users, m);
    if k !in cs { AppendFresh(csOrder, k); }
  }

  /** `mark_conversation_seen` keeps the store invariant. */
  lemma MarkSeenKeepsStoreValid(users: Users, userOrder: seq<UserId>, cs: Conversations,
                                csOrder: seq<Key>, seen: SeenMarks, v: UserId, p: UserId)
    requires StoreValid(users, userOrder, cs, csOrder, seen)
    ensures StoreValid(users, userOrder, cs, csOrder, MarkedSeen(cs, seen, v, p))
  {
    MarkSeenKeepsSeenBounded(cs, seen, v, p);
  }

  /** `ensure_user_seen` keeps the store invariant. */
  lemma RowKeepsStoreValid(users: Users, userOrder: seq<UserId>, cs: Conversations,
                           csOrder: seq<Key>, seen: SeenMarks, u: UserId)
    requires StoreValid(users, userOrder, cs, csOrder, seen)
    ensures StoreValid(users, userOrder, cs, csOrder, WithRow(seen, u))
  {
    EmptyRowInvisible(cs, seen, u);
  }

  /** The seen marks after the login form: the user's row is created on success. */
  function SeenAfterLogin(seen: SeenMarks, outcome: LoginOutcome): SeenMarks {
    if outcome.LoggedIn? then WithRow(seen, outcome.id) else seen
  }

  /** The order of user ids after the login form: a new id comes last. */
  function OrderAfterLogin(userOrder: seq<UserId>, users: Users, outcome: LoginOutcome): seq<UserId> {
    if outcome.LoggedIn? && outcome.id !in users then userOrder + [outcome.id] else userOrder
  }

  /** The login form keeps the store invariant. */
  lemma LoginKeepsStoreValid(users: Users, userOrder: seq<UserId>, cs: Conversations,
                             csOrder: seq<Key>, seen: SeenMarks, username: string, language: string)
    requires StoreValid(users, userOrder, cs, csOrder, seen)
    ensures var r := LoginUpsert(users, username, language);
      StoreValid(r.1, OrderAfterLogin(userOrder, users, r.0), cs, csOrder, SeenAfterLogin(seen, r.0))
  {
    var r := LoginUpsert(users, username, language);
    LoginKeepsDirectoryValid(users, username, language);
    LogsKeepRegisteredUsers(cs, users, r.1);
    EmptyRowInvisible(cs, seen, if r.0.LoggedIn? then r.0.id else []);
    if r.0.LoggedIn? && r.0.id !in users { AppendFresh(userOrder, r.0.id); }
  }

}
