# Translating chat backend: conversation store and read tracking

This project models the core of `chatapp.py`, a small Flask chat server in which
every message is translated into the recipient's language before it is stored.
The server keeps three in-memory dictionaries:

- `users`: lower-cased id → display name (case kept) and preferred language;
- `conversations`: canonical pair of ids → ordered log of messages, each holding
  the sender, the recipient, the original text and the translated text;
- `user_seen`: viewer → pair → number of leading messages of that log the viewer
  has seen.

The model is a class `ChatApp.ChatServer` with these dictionaries as `map`
fields. Two more `seq` fields hold the keys of `users` and `conversations` in
insertion order, because Python iterates dictionaries in that order. Its
methods perform the source's updates: `setdefault`, `append` and item
assignment. The loops of `serialize_messages` and `build_dashboard_payload`
stay `for` loops. What the methods compute is specified by value-level
functions in the modules below, and the properties are proved as lemmas about
those functions:

- `Text`: Python's `str.strip()` (with the full `str.isspace` character set), ASCII
  `str.lower()`, the string order `<`, and substring search `in`.
- `Directory`: the user records and the login upsert.
- `Store`: conversation keys, logs, seen marks, unread counts, the effect of
  saving and of marking as seen, and the store invariant `StoreValid`.
- `Translation`: what `translate_message` does with the provider's answer.
- `Projection`: the per-viewer view of one message.
- `Dashboard`: search matches, recent contacts, and the stable sort by
  lower-cased display name.
- `Send`: the decisions of `send_message`.

The class invariant `Valid()` states five things:

- each order list names every key of its dictionary exactly once;
- every directory record is filed under the lower-cased form of its display name;
- no display name or language is blank or carries surrounding whitespace;
- every stored log is non-empty, lies under the key of each of its entries, and
  names only registered users;
- `0 <= user_seen[v][k] <= len(conversations[k])`.

Every state-changing method preserves it.

The translator is an oracle. `Send.PlanSend` takes it as a function from the
message text and the target language to a `ProviderResponse`. That response is
either a reply, whose text may be missing, or a failure carrying the
exception's message.

## Model

| member | source | states |
|---|---|---|
| Store.ConversationKey | chatapp.py:44-45 | the key holds the two given ids, in ascending order under Python's string `<` |
| Store.KeySymmetric | chatapp.py:44-45 | both argument orders give the same key, so both participants reach the same log |
| Store.KeyIdentifiesPair | chatapp.py:44-45 | two pairs share a key exactly when they are the same unordered pair |
| Store.Involves | chatapp.py:154 | `user in key`: the user is one of the two ids of the key |
| Store.LogOf | chatapp.py:75 | `conversations.get(key, [])` at lines 75 and 96: the stored log, or the empty log when the pair has none |
| Store.SeenMark | chatapp.py:76 | `ensure_user_seen(u).get(key, 0)`: the viewer's mark for the key, 0 when the row or the mark is missing |
| Store.WithEntry | chatapp.py:88-89 | the logs after lines 88-89: the entry appended to the log under its canonical key, which is created when absent |
| Store.WithRow | chatapp.py:65 | the seen marks after `user_seen.setdefault(u, {})`: an empty row added only when the user has none |
| Store.MarkedSeen | chatapp.py:69-70 | the seen marks after lines 69-70: the viewer's mark for the canonical key set to that log's current length |
| Store.SenderCaughtUp | chatapp.py:90 | the seen marks after line 90, which runs after the append: the sender's mark for the key set to the old length plus one |
| Store.OrderWith | chatapp.py:88 | the insertion order of `conversations` after `setdefault(key, [])`: a new key goes last, a known key keeps its place |
| Store.SeenAfterLogin | chatapp.py:196 | the seen marks after a login, whose successful branches call `ensure_user_seen` at lines 196 and 207 |
| Store.OrderAfterLogin | chatapp.py:203-206 | the insertion order of `users` after a login: a newly registered id goes last, otherwise unchanged |
| Text.LessTrichotomy | chatapp.py:44-45 | any two different ids are ordered one way or the other, so `sorted` has one answer |
| Text.LessTransitive | chatapp.py:44-45 | the string order used by `sorted` and `list.sort` is transitive |
| Text.LessAsymmetric | chatapp.py:44-45 | the string order is asymmetric |
| Text.LessIrreflexive | chatapp.py:44-45 | no string is below itself |
| Text.Less | chatapp.py:45 | Python's `<` on strings, as `sorted` at line 45 and `list.sort` at lines 149 and 167 compare: code point by code point, a proper prefix first |
| Text.IsSpace | chatapp.py:183-184 | the characters for which `str.isspace()` holds, which `str.strip()` removes from both ends |
| Text.Lower | chatapp.py:134 | `str.lower()` on ASCII letters, as used at lines 134, 149, 167, 189 and 295; it keeps the length |
| Text.IsSubstring | chatapp.py:140 | Python's `needle in hay` on strings: the needle occurs at some position of the text |
| Text.Strip | chatapp.py:183-184 | `strip()` never lengthens a text and leaves no whitespace at either end |
| Text.StripIsTrimmedSlice | chatapp.py:183-184 | the stripped text is a slice of the input, with only whitespace cut off on either side |
| Text.StripBlankIff | chatapp.py:299-301 | stripping gives the empty string exactly when the text is all whitespace |
| Text.StripIdempotent | chatapp.py:183-184 | stripping twice is stripping once |
| Text.TrimmedIffStripFixed | chatapp.py:183-184 | a text is its own strip exactly when it has no whitespace at either end |
| Directory.LoginIdempotent | chatapp.py:183-209 | submitting the same login form twice in a row leaves the same outcome and directory as submitting it once |
| Text.EmptyIsSubstring | chatapp.py:140 | the empty needle occurs in every text |
| Dashboard.NameMatchesIffSubstring | chatapp.py:134-140 | the search test `not query_lower or query_lower in name.lower()` holds exactly when the normalised query occurs in the lower-cased name |
| Translation.TranslateMessage | chatapp.py:48-61 | fails exactly when the provider call fails, carrying its diagnostic; a missing or empty reply stores the message itself, and any other reply is stored stripped |
| Translation.EmptyReplyFallsBack | chatapp.py:61 | a missing or empty reply stores the original message as its translation |
| Translation.BlankReplyStoresEmpty | chatapp.py:61 | a whitespace-only reply is not empty, so it is stripped to "" and "" is stored |
| Translation.TranslationIsTrimmed | chatapp.py:61 | for a stripped message, the stored translation has no surrounding whitespace |
| Store.UnreadCount | chatapp.py:73-77 | never negative; under the seen-mark invariant it is the log length less the seen mark (missing log or mark counting 0), never more than the log length |
| Store.EmptyRowInvisible | chatapp.py:64-65 | creating an empty seen row changes no seen mark, no unread count and not the invariant |
| Store.SaveAppendsExactlyOne | chatapp.py:80-91 | saving appends exactly the entry to its pair's log under either argument order, creating the log if absent, and leaves every other log unchanged |
| Store.LogsOnlyGrow | chatapp.py:88-89 | every log before a save is a prefix of the same log after it, at most one entry shorter |
| Store.SaveKeepsSeenBounded | chatapp.py:88-90 | saving keeps `0 <= seen <= len(log)` for every viewer and pair |
| Store.SaveKeepsLogsWellFormed | chatapp.py:80-91 | saving an entry between registered users keeps the logs well formed |
| Store.SaveCatchesUpSender | chatapp.py:90 | after saving, the sender has nothing unread in that conversation |
| Store.SaveAddsOneUnreadForRecipient | chatapp.py:73-91 | after saving, the recipient has exactly one more unread message from the sender, and no other pair's count changes |
| Store.MarkSeenClearsUnread | chatapp.py:68-77 | after marking as seen, the viewer has nothing unread in that pair |
| Store.MarkSeenNeverLowers | chatapp.py:68-70 | under `0 <= seen <= len(log)`, marking as seen lowers no viewer's mark for any key |
| Store.SaveNeverLowersSeen | chatapp.py:88-90 | under `0 <= seen <= len(log)`, saving a message lowers no viewer's mark for any key |
| Store.MarkSeenIdempotent | chatapp.py:68-70 | marking twice with no append in between leaves the same seen marks as marking once |
| Store.MarkSeenKeepsSeenBounded | chatapp.py:68-70 | marking keeps `0 <= seen <= len(log)` and changes no count but the viewer's own for that pair |
| Store.LogsKeepRegisteredUsers | chatapp.py:192-207 | registering or updating users keeps the logs well formed |
| Store.SaveKeepsStoreValid | chatapp.py:80-91 | saving between registered users keeps the whole store invariant, appending a new key to the key order |
| Store.MarkSeenKeepsStoreValid | chatapp.py:68-70 | marking as seen keeps the store invariant |
| Store.RowKeepsStoreValid | chatapp.py:64-65 | creating a seen row keeps the store invariant |
| Store.LoginKeepsStoreValid | chatapp.py:183-209 | the login form keeps the store invariant, with a new id appended to the user order and the user's seen row created |
| Directory.LoginUpsert | chatapp.py:183-209 | a blank name is refused; an unknown id without a language is refused and changes nothing; otherwise the record under the lower-cased stripped name gets the stripped name with its case kept, and the new language only when it is non-blank |
| Directory.LoginKeepsDirectoryValid | chatapp.py:183-209 | logging in keeps every record filed under its lower-cased name, with no blank or padded name or language |
| Directory.RecordKeepsDirectoryValid | chatapp.py:203-206 | filing a well-formed record under its own id keeps the directory valid |
| Directory.LoginIdentity | chatapp.py:183-190 | names differing only in ASCII case or surrounding whitespace reach the same record; logging in never removes an id |
| Projection.Project | chatapp.py:100-125 | `is_self` holds exactly for the viewer's own messages, `created_by` is the sender, both texts are among the stored two, and a non-empty original never gives an empty primary text |
| Projection.ProjectionChoosesText | chatapp.py:100-125 | own messages are labelled "You", original first, translation second; others' messages carry the sender's name, the translation first (the original if the translation is empty) and the original second |
| Projection.ViewsMirror | chatapp.py:100-114 | when the stored translation is non-empty, the two participants see the two versions of a message swapped |
| Projection.EmptyTranslationShowsOriginal | chatapp.py:100-114 | when the stored translation is empty, the author sees the original over an empty secondary text and the addressee sees the original as both primary and secondary text |
| Projection.LabelsFollowDirectory | chatapp.py:103-119 | labels are looked up when viewing, so a later change of name or language shows on old messages |
| Dashboard.ContactsFor | chatapp.py:140-147 | one row per id, in order, with that user's directory data and the viewer's unread count |
| Dashboard.ContactsForMembers | chatapp.py:140-147 | a row is listed exactly when its user is, and distinct ids give distinct rows |
| Dashboard.ContactFor | chatapp.py:141-147 | one dashboard row as built at lines 141-147 and 159-166: the id, display name and language from the directory and the viewer's unread count |
| Dashboard.NameMatches | chatapp.py:140 | the search test `not query_lower or query_lower in display_name.lower()` |
| Dashboard.Other | chatapp.py:155 | `key[0] if key[0] != user else key[1]`: the other participant of a key |
| Dashboard.SortKey | chatapp.py:149 | the sort key `item["display_name"].lower()` of lines 149 and 167 |
| Dashboard.BlankQueryMatchesAll | chatapp.py:134-139 | an empty or all-whitespace query matches every name |
| Dashboard.MatchedUsers | chatapp.py:136-139 | the kept ids come from the directory order and never include the viewer |
| Dashboard.MatchedUsersSpec | chatapp.py:134-147 | an id is kept exactly when it is another user whose lower-cased name contains the normalised query, and each is kept once |
| Dashboard.RecentPartners | chatapp.py:151-158 | every kept partner is registered |
| Dashboard.RecentPartnersSpec | chatapp.py:151-166 | a partner is kept exactly when it is registered and shares a conversation key with the viewer, and each is kept once |
| Dashboard.SearchMatches | chatapp.py:134-147 | the search loop builds the rows of the matched ids, in directory order |
| Dashboard.CollectRecent | chatapp.py:150-166 | the recent-contacts loop, with its `seen_partners` set, builds the rows of the kept partners, in key order |
| Dashboard.SortByName | chatapp.py:149 | the result is sorted by lower-cased display name, is a permutation of the input, and keeps rows with equal keys in their input order (a stable sort) |
| Dashboard.SortedRowsDistinct | chatapp.py:148-167 | a sorted permutation of the rows for distinct ids names each user once and lists exactly those users' rows |
| Send.PlanSend | chatapp.py:295-309 | refused as an invalid conversation exactly when the lower-cased partner is unknown or is the user; when accepted, what is stored is the stripped, non-empty message for that partner |
| Send.MessageText | chatapp.py:299-300 | `(data.get("message") or "").strip()`: the stripped message, or "" when none was sent |
| Send.BlankMessageRejected | chatapp.py:299-301 | a missing, empty or all-whitespace message is refused before the translator is asked |
| Send.TranslatorFailureRejected | chatapp.py:303-311 | a failing translator call is reported with its diagnostic and nothing is stored |
| Send.AcceptedIffTranslated | chatapp.py:295-309 | a send is stored exactly when the partner is valid, the message is not blank and the translator replied, and the stored translation is `translate_message`'s result |
| Send.EmptyReplyStoresOriginal | chatapp.py:61 | a successful reply without text stores the message as its own translation |
| ChatApp.ChatServer.constructor | chatapp.py:31-33 | the store starts empty and valid |
| ChatApp.ChatServer.EnsureUserSeen | chatapp.py:64-65 | creates the viewer's empty seen row if missing, changing nothing else and keeping the invariant |
| ChatApp.ChatServer.MarkConversationSeen | chatapp.py:68-70 | sets the viewer's mark for the pair to the log length, leaving logs and users unchanged and keeping the invariant |
| ChatApp.ChatServer.SaveMessage | chatapp.py:80-91 | appends the entry to its pair's log, records a new key in the key order, catches the sender up, and returns the entry |
| ChatApp.ChatServer.SerializeMessages | chatapp.py:94-130 | returns one view per logged message, in log order, as the viewer sees it; seen marks change only when `mark_seen` is set |
| ChatApp.ChatServer.BuildDashboardPayload | chatapp.py:133-169 | both lists are sorted, stable permutations of the loops' rows; matches are exactly the other users matching the query, recent contacts exactly the registered partners, and each lists every user once |
| ChatApp.ChatServer.SendMessage | chatapp.py:289-311 | a refusal or translator failure changes no log and no seen mark; an accepted send appends exactly the planned entry, appends its key to the key order when the pair is new, catches the sender up and answers with the sender's view of it |
| ChatApp.ChatServer.SaveAndShow | chatapp.py:308-309 | saves the entry, appends its key to the key order when the pair is new, and answers with the last serialized view, which is the new entry as its sender sees it |
| ChatApp.ChatServer.Login | chatapp.py:183-209 | updates the directory as `LoginUpsert` says, appends a new id to the user order, and creates the user's seen row on success |

## Left out

- Flask routing, sessions, cookies, templates, `jsonify` and HTTP status codes
  (chatapp.py:36-41, 172-182, 210-288) are not modelled; the login upsert at
  183-209 that this routing surrounds is modelled. `SendMessage` takes the
  logged-in user as an id that must be registered, which is what
  `current_user` guarantees. A refusal is returned as a `SendError`, not as an
  HTTP status.
- The Gemini client, the environment and API-key loading, and the model and
  temperature settings (chatapp.py:18-29, 49-59) are not modelled. The
  provider's answer is an oracle parameter of `Send.PlanSend` and
  `ChatApp.ChatServer.SendMessage`.
- The exception text of a failed send is kept only as the provider's
  diagnostic (`TranslationFailed(diagnostic)`), not as the formatted message.
- The exact f-string text of the secondary labels (chatapp.py:104-113) is
  modelled as the tag `TranslatedFor(name, language)` or `OriginalIn(language)`.
- The settings route (chatapp.py:314-335) changes a user's language and is not
  part of this model.
- The read-only chat routes' own partner validation (chatapp.py:259-263,
  282-286) is not modelled. `SerializeMessages` requires the partner to be
  registered, as those routes check.
- JSON request parsing is modelled only as `data.get("message")` being a
  string or absent (`Option<string>`). Non-string JSON values are not modelled.
- Concurrency is left out: `app.run` (chatapp.py:339) starts a threaded
  development server and the dictionaries are updated without any locking, so
  two requests can interleave (for instance inside lines 88-90). The model
  treats every operation as running alone; interleavings are not modelled.
- `str.lower()` is modelled for ASCII letters only. Unicode case mapping is not
  modelled, so two ids that differ only in non-ASCII case are different ids
  here.
- Store.UnreadCount: side-effect free, whereas the source's `unread_count`
  calls `ensure_user_seen` and may create an empty seen row.
  `Store.EmptyRowInvisible` shows that the row changes nothing observable.
- ChatApp.ChatServer.SaveMessage: requires both participants to be
  registered. Its only caller checks this before calling, and the invariant
  relies on it because `serialize_messages` looks every sender up in `users`.
- ChatApp.ChatServer.Login: applies `LoginUpsert` to the directory in one step
  instead of mutating the record field by field. The resulting dictionary is
  the same.
- A translator reply made only of whitespace is not empty, so line 61
  does not fall back to the original: the reply is stripped and the empty
  string is stored (`Translation.BlankReplyStoresEmpty`).
