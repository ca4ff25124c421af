/**
 The process-wide state of the chat backend and the operations that change it:
 the three dictionaries `users`, `conversations` and `user_seen`, plus the
 insertion order in which Python iterates the first two.
 */
module ChatApp {
  import opened Base
  import opened Text
  import opened Directory
  import opened Store
  import opened Projection
  import opened Dashboard
  import opened Send

  class ChatServer {
    var users: Users
    /** The ids of `users` in insertion order (how `users.items()` iterates). */
    var userOrder: seq<UserId>
    var conversations: Conversations
    /** The keys of `conversations` in insertion order. */
    var conversationOrder: seq<Key>
    var userSeen: SeenMarks

    /** The store invariant (see `StoreValid`) on the current fields. */
    ghost predicate Valid()
      reads this
    {
      StoreValid(users, userOrder, conversations, conversationOrder, userSeen)
    }

    /** The empty store at start-up. */
    constructor ()
      ensures Valid()
      ensures users == map[] && conversations == map[] && userSeen == map[]
      ensures userOrder == [] && conversationOrder == []
    {
      users, userOrder := map[], [];
      conversations, conversationOrder := map[], [];
      userSeen := map[];
    }

    /** `ensure_user_seen(u)`: create the viewer's empty row of seen marks if it
        is missing. */
    method EnsureUserSeen(u: UserId)
      requires Valid()
      modifies this
      ensures users == old(users) && userOrder == old(userOrder)
      ensures conversations == old(conversations) && conversationOrder == old(conversationOrder)
      ensures userSeen == WithRow(old(userSeen), u)
      ensures Valid()
    {
      RowKeepsStoreValid(users, userOrder, conversations, conversationOrder, userSeen, u);
      if u !in userSeen {
        userSeen := userSeen[u := map[]];
      }
    }

    /** `mark_conversation_seen(viewer, partner)`: the viewer is caught up to the
        current length of the pair's log. */
    method MarkConversationSeen(viewer: UserId, partner: UserId)
      requires Valid()
      modifies this
      ensures users == old(users) && userOrder == old(userOrder)
      ensures conversations == old(conversations) && conversationOrder == old(conversationOrder)
      ensures userSeen == MarkedSeen(conversations, old(userSeen), viewer, partner)
      ensures Valid()
    {
      MarkSeenKeepsStoreValid(users, userOrder, conversations, conversationOrder, userSeen, viewer, partner);
      var key := ConversationKey(viewer, partner);
      var row := SeenRow(userSeen, viewer);
      userSeen := userSeen[viewer := row[key := |LogOf(conversations, key)|]];
    }

    /** `save_message`: append the entry to the pair's log (creating the log on
        first use), catch the sender up, and return the entry. Its only caller
        has checked that both participants are registered. */
    method SaveMessage(sender: UserId, recipient: UserId, originalText: string, translatedText: string)
      returns (entry: Message)
      requires Valid()
      requires sender in users && recipient in users
      modifies this
      ensures users == old(users) && userOrder == old(userOrder)
      ensures entry == Message(sender, recipient, originalText, translatedText)
      ensures conversations == WithEntry(old(conversations), entry)
      ensures conversationOrder == OrderWith(old(conversationOrder), old(conversations), ConversationKey(sender, recipient))
      ensures userSeen == SenderCaughtUp(old(conversations), old(userSeen), entry)
      ensures Valid()
    {
      var key := ConversationKey(sender, recipient);
      entry := Message(sender, recipient, originalText, translatedText);
      SaveKeepsStoreValid(users, userOrder, conversations, conversationOrder, userSeen, entry);
      if key !in conversations {
        conversationOrder := conversationOrder + [key];
      }
      var bucket := LogOf(conversations, key) + [entry];
      var row := SeenRow(userSeen, sender);
      conversations := conversations[key := bucket];
      userSeen := userSeen[sender := row[key := |bucket|]];
    }

    /** `serialize_messages(viewer, partner, mark_seen)`: the view of every entry
        of the pair's log, in log order; the viewer is caught up afterwards only
        when `markSeen` is set. */
    method SerializeMessages(viewer: UserId, partner: UserId, markSeen: bool) returns (views: seq<MessageView>)
      requires Valid()
      requires partner in users
      modifies this
      ensures users == old(users) && userOrder == old(userOrder)
      ensures conversations == old(conversations) && conversationOrder == old(conversationOrder)
      ensures var log := LogOf(conversations, ConversationKey(viewer, partner));
        && (forall m :: m in log ==> m.sender in users)
        && |views| == |log|
        && forall i :: 0 <= i < |log| ==> views[i] == Project(users, viewer, partner, log[i])
      ensures userSeen == if markSeen then MarkedSeen(conversations, old(userSeen), viewer, partner) else old(userSeen)
      ensures Valid()
    {
      var key := ConversationKey(viewer, partner);
      var rawMessages := LogOf(conversations, key);
      assert forall m :: m in rawMessages ==> m.sender in users;
      views := [];
      for i := 0 to |rawMessages|
        invariant |views| == i
        invariant forall j :: 0 <= j < i ==> views[j] == Project(users, viewer, partner, rawMessages[j])
      {
        views := views + [Project(users, viewer, partner, rawMessages[i])];
      }
      if markSeen {
        MarkConversationSeen(viewer, partner);
      }
    }

    /** `build_dashboard_payload(user, query)`: the other users whose name
        matches the query, and the registered partners of the viewer's
        conversations, each with the viewer's unread count and each sorted by
        lower-cased display name. */
    method BuildDashboardPayload(user: UserId, query: string) returns (payload: DashboardPayload)
      requires Valid()
      ensures var found := ContactsFor(users, conversations, userSeen, user, MatchedUsers(users, user, Lower(Strip(query)), userOrder));
        && SortedByName(payload.matches)
        && multiset(payload.matches) == multiset(found)
        && SameOrderPerName(payload.matches, found)
      ensures var recent := ContactsFor(users, conversations, userSeen, user, RecentPartners(users, user, conversationOrder));
        && SortedByName(payload.recentContacts)
        && multiset(payload.recentContacts) == multiset(recent)
        && SameOrderPerName(payload.recentContacts, recent)
      ensures forall c :: c in payload.matches <==>
                && c.username in users && c.username != user
                && NameMatches(Lower(Strip(query)), users[c.username].displayName)
                && c == ContactFor(users, conversations, userSeen, user, c.username)
      ensures forall c :: c in payload.recentContacts <==>
                && c.username in users
                && (exists k :: k in conversations && Involves(k, user) && Other(k, user) == c.username)
                && c == ContactFor(users, conversations, userSeen, user, c.username)
      ensures DistinctUsernames(payload.matches) && DistinctUsernames(payload.recentContacts)
    {
      var queryLower := Lower(Strip(query));
      var foundUsers := MatchedUsers(users, user, queryLower, userOrder);
      var matches := SearchMatches(users, conversations, userSeen, user, queryLower, userOrder);
      matches := SortByName(matches);
      var partners := RecentPartners(users, user, conversationOrder);
      var recentContacts := CollectRecent(users, conversations, userSeen, user, conversationOrder);
      recentContacts := SortByName(recentContacts);

      MatchedUsersSpec(users, user, queryLower, userOrder);
      SortedRowsDistinct(users, conversations, userSeen, user, foundUsers, matches);
      RecentPartnersSpec(users, user, conversationOrder);
      SortedRowsDistinct(users, conversations, userSeen, user, partners, recentContacts);
      payload := DashboardPayload(matches, recentContacts);
    }

    /** The send path of `send_message` for the logged-in `user`: refusals and a
        failed translation leave the store as it was; otherwise the message is
        saved and the sender's view of it is returned. */
    method SendMessage(user: UserId, partner: string, message: Option<string>, translator: Translator)
      returns (outcome: SendOutcome)
      requires Valid()
      requires user in users
      modifies this
      ensures users == old(users) && userOrder == old(userOrder)
      ensures var plan := PlanSend(users, user, partner, message, translator);
        if plan.Rejected? then
          && outcome == NotSent(plan.error)
          && conversations == old(conversations) && userSeen == old(userSeen)
          && conversationOrder == old(conversationOrder)
        else
          var entry := Message(user, plan.partnerKey, plan.text, plan.translated);
          && conversations == WithEntry(old(conversations), entry)
          && conversationOrder == OrderWith(old(conversationOrder), old(conversations), ConversationKey(user, plan.partnerKey))
          && userSeen == SenderCaughtUp(old(conversations), old(userSeen), entry)
          && outcome == Sent(Project(users, user, plan.partnerKey, entry))
      ensures Valid()
    {
      var plan := PlanSend(users, user, partner, message, translator);
      match plan
      case Rejected(error) =>
        outcome := NotSent(error);
      case Accepted(partnerKey, text, translated) =>
        var view := SaveAndShow(user, partnerKey, text, translated);
        outcome := Sent(view);
    }

    /** The success path of `send_message`: save the message, then answer with
        the last view of the serialized conversation, which is the new entry as
        its sender sees it. */
    method SaveAndShow(user: UserId, partnerKey: UserId, text: string, translated: string)
      returns (view: MessageView)
      requires Valid()
      requires user in users && partnerKey in users
      modifies this
      ensures users == old(users) && userOrder == old(userOrder)
      ensures var entry := Message(user, partnerKey, text, translated);
        && conversations == WithEntry(old(conversations), entry)
        && conversationOrder == OrderWith(old(conversationOrder), old(conversations), ConversationKey(user, partnerKey))
        && userSeen == SenderCaughtUp(old(conversations), old(userSeen), entry)
        && view == Project(users, user, partnerKey, entry)
      ensures Valid()
    {
      var entry := SaveMessage(user, partnerKey, text, translated);
      SaveAppendsExactlyOne(old(conversations), entry);
      var views := SerializeMessages(user, partnerKey, false);
      view := views[|views| - 1];
    }

    /** The login form (see `LoginUpsert`): on success the directory record is
        created or updated, a new id is appended to the directory order and the
        user's seen row is created; a refusal changes nothing. */
    method Login(username: string, language: string) returns (outcome: LoginOutcome)
      requires Valid()
      modifies this
      ensures conversations == old(conversations) && conversationOrder == old(conversationOrder)
      ensures outcome == LoginUpsert(old(users), username, language).0
      ensures users == LoginUpsert(old(users), username, language).1
      ensures userOrder == OrderAfterLogin(old(userOrder), old(users), outcome)
      ensures userSeen == SeenAfterLogin(old(userSeen), outcome)
      ensures Valid()
    {
      var upsert := LoginUpsert(users, username, language);
      LoginKeepsStoreValid(users, userOrder, conversations, conversationOrder, userSeen, username, language);
      var newOrder := OrderAfterLogin(userOrder, users, upsert.0);
      var newSeen := SeenAfterLogin(userSeen, upsert.0);
      assert StoreValid(upsert.1, newOrder, conversations, conversationOrder, newSeen);
      outcome := upsert.0;
      users, userOrder, userSeen := upsert.1, newOrder, newSeen;
    }
  }

}
