/**
 The two lists of the dashboard payload: the search matches and the recent
 contacts, each row annotated with the viewer's unread count and each list
 sorted by lower-cased display name with Python's stable `list.sort`.
 */
module Dashboard {
  import opened Base
  import opened Text
  import opened Directory
  import opened Store

  /** One row of either list: `username`, `display_name`, `language`, `unread_count`. */
  datatype Contact = Contact(username: UserId, displayName: string, language: string, unreadCount: int)

  datatype DashboardPayload = DashboardPayload(matches: seq<Contact>, recentContacts: seq<Contact>)

  /** The row for user `u` as `viewer` sees it. */
  function ContactFor(users: Users, cs: Conversations, seen: SeenMarks, viewer: UserId, u: UserId): Contact
    requires u in users
  {
    Contact(u, users[u].displayName, users[u].language, UnreadCount(cs, seen, viewer, u))
  }

  /** The rows for `names`, in the same order. */
  function ContactsFor(users: Users, cs: Conversations, seen: SeenMarks, viewer: UserId, names: seq<UserId>): (r: seq<Contact>)
    requires forall u :: u in names ==> u in users
    ensures |r| == |names|
    ensures forall i :: 0 <= i < |names| ==> r[i] == ContactFor(users, cs, seen, viewer, names[i])
  {
    if names == [] then []
    else ContactsFor(users, cs, seen, viewer, names[..|names| - 1])
         + [ContactFor(users, cs, seen, viewer, names[|names| - 1])]
  }

  /** One more name gives one more row at the end. */
  lemma ContactsForSnoc(users: Users, cs: Conversations, seen: SeenMarks, viewer: UserId, names: seq<UserId>, u: UserId)
    requires forall v :: v in names ==> v in users
    requires u in users
    ensures ContactsFor(users, cs, seen, viewer, names + [u])
            == ContactsFor(users, cs, seen, viewer, names) + [ContactFor(users, cs, seen, viewer, u)]
  {
    assert (names + [u])[..|names|] == names;
  }

  /** A row is listed exactly when its user is listed and it carries that
      user's directory data and unread count; distinct users give distinct rows. */
  lemma ContactsForMembers(users: Users, cs: Conversations, seen: SeenMarks, viewer: UserId, names: seq<UserId>)
    requires forall u :: u in names ==> u in users
    ensures forall c :: c in ContactsFor(users, cs, seen, viewer, names) <==>
              c.username in names && c == ContactFor(users, cs, seen, viewer, c.username)
    ensures NoDuplicates(names) ==> NoDuplicates(ContactsFor(users, cs, seen, viewer, names))
  {
    var r := ContactsFor(users, cs, seen, viewer, names);
    forall c: Contact | c.username in names && c == ContactFor(users, cs, seen, viewer, c.username)
      ensures c in r
    {
      var i :| 0 <= i < |names| && names[i] == c.username;
      assert r[i] == c;
    }
  }

  /** Rows with pairwise distinct usernames. */
  ghost predicate DistinctUsernames(s: seq<Contact>) {
    forall i, j :: 0 <= i < j < |s| ==> s[i].username != s[j].username
  }

  /** The search test of `build_dashboard_payload` for the normalised query
      `query.strip().lower()`: it is empty or occurs in the lower-cased display
      name. */
  predicate NameMatches(queryLower: string, displayName: string) {
    queryLower == [] || IsSubstring(queryLower, Lower(displayName))
  }

  /** The guard `not query_lower` only short-cuts Python's `in`: the empty
      query occurs in every lower-cased name anyway. */
  lemma NameMatchesIffSubstring(queryLower: string, displayName: string)
    ensures NameMatches(queryLower, displayName) <==> IsSubstring(queryLower, Lower(displayName))
  {
    if queryLower == [] { EmptyIsSubstring(Lower(displayName)); }
  }

  /** An empty or all-whitespace query matches every name. */
  lemma BlankQueryMatchesAll(query: string, displayName: string)
    requires forall k :: 0 <= k < |query| ==> IsSpace(query[k])
    ensures NameMatches(Lower(Strip(query)), displayName)
  {
    StripBlankIff(query);
  }

  /** The ids the search loop keeps, in directory order: everyone but the
      viewer whose name matches the query. */
  function MatchedUsers(users: Users, viewer: UserId, queryLower: string, order: seq<UserId>): (r: seq<UserId>)
    requires forall u :: u in order ==> u in users
    ensures forall u :: u in r ==> u in order && u != viewer
  {
    if order == [] then []
    else
      var u := order[|order| - 1];
      MatchedUsers(users, viewer, queryLower, order[..|order| - 1])
        + (if u != viewer && NameMatches(queryLower, users[u].displayName) then [u] else [])
  }

  /** The search keeps exactly the other users whose name matches, each once. */
  lemma {:induction false} MatchedUsersSpec(users: Users, viewer: UserId, queryLower: string, order: seq<UserId>)
    requires forall u :: u in order ==> u in users
    ensures forall u :: u in MatchedUsers(users, viewer, queryLower, order) <==>
              u in order && u != viewer && NameMatches(queryLower, users[u].displayName)
    ensures NoDuplicates(order) ==> NoDuplicates(MatchedUsers(users, viewer, queryLower, order))
  {
    if order != [] {
      var init := order[..|order| - 1];
      var u := order[|order| - 1];
      assert order == init + [u];
      MatchedUsersSpec(users, viewer, queryLower, init);
      if NoDuplicates(order) {
        assert u !in init;
        if u != viewer && NameMatches(queryLower, users[u].displayName) {
          AppendFresh(MatchedUsers(users, viewer, queryLower, init), u);
        }
      }
    }
  }

  /** `key[0] if key[0] != user else key[1]`: the other participant of a key. */
  function Other(k: Key, viewer: UserId): UserId {
    if k.first != viewer then k.first else k.second
  }

  /** The partners the recent-contacts loop keeps, in key order: for each key
      that involves the viewer, its other participant, if registered and not
      already kept. */
  function RecentPartners(users: Users, viewer: UserId, keys: seq<Key>): (r: seq<UserId>)
    ensures forall p :: p in r ==> p in users
  {
    if keys == [] then []
    else
      var before := RecentPartners(users, viewer, keys[..|keys| - 1]);
      var k := keys[|keys| - 1];
      if Involves(k, viewer) && Other(k, viewer) in users && Other(k, viewer) !in before
      then before + [Other(k, viewer)]
      else before
  }

  /** The recent contacts are exactly the registered partners of the viewer's
      conversations, each listed once. */
  lemma {:induction false} RecentPartnersSpec(users: Users, viewer: UserId, keys: seq<Key>)
    ensures forall p :: p in RecentPartners(users, viewer, keys) <==>
              p in users && exists k :: k in keys && Involves(k, viewer) && Other(k, viewer) == p
    ensures NoDuplicates(RecentPartners(users, viewer, keys))
  {
    if keys != [] {
      var init := keys[..|keys| - 1];
      var k := keys[|keys| - 1];
      assert keys == init + [k];
      RecentPartnersSpec(users, viewer, init);
      var before := RecentPartners(users, viewer, init);
      if Involves(k, viewer) && Other(k, viewer) in users && Other(k, viewer) !in before {
        AppendFresh(before, Other(k, viewer));
      }
      forall p | p in users && (exists k' :: k' in keys && Involves(k', viewer) && Other(k', viewer) == p)
        ensures p in RecentPartners(users, viewer, keys)
      {
        var k' :| k' in keys && Involves(k', viewer) && Other(k', viewer) == p;
        if k' != k { assert k' in init; }
      }
    }
  }

  /** The sort key: `item["display_name"].lower()`. */
  function SortKey(c: Contact): string {
    Lower(c.displayName)
  }

  /** Ascending by sort key, as Python's `<` orders strings. */
  ghost predicate SortedByName(s: seq<Contact>) {
    forall i, j :: 0 <= i < j < |s| ==> !Less(SortKey(s[j]), SortKey(s[i]))
  }

  /** The rows of `s` whose sort key is `name`, in their order in `s`. */
  function WithName(s: seq<Contact>, name: string): seq<Contact> {
    if s == [] then []
    else WithName(s[..|s| - 1], name) + (if SortKey(s[|s| - 1]) == name then [s[|s| - 1]] else [])
  }

  /** Stability: rows with equal sort keys keep their relative order. */
  ghost predicate SameOrderPerName(r: seq<Contact>, s: seq<Contact>) {
    forall name :: WithName(r, name) == WithName(s, name)
  }

  lemma {:induction false} WithNameAppend(a: seq<Contact>, b: seq<Contact>, name: string)
    ensures WithName(a + b, name) == WithName(a, name) + WithName(b, name)
    decreases |b|
  {
    if b == [] {
      assert a + b == a;
    } else {
      var init := b[..|b| - 1];
      assert (a + b)[..|a + b| - 1] == a + init;
      assert (a + b)[|a + b| - 1] == b[|b| - 1];
      WithNameAppend(a, init, name);
    }
  }

  lemma {:induction false} WithNameNone(s: seq<Contact>, name: string)
    requires forall m :: 0 <= m < |s| ==> SortKey(s[m]) != name
    ensures WithName(s, name) == []
  {
    if s != [] { WithNameNone(s[..|s| - 1], name); }
  }

  /** If `x` is strictly below `y` and `z` is not below `y`, then `z` is not below `x`. */
  lemma NotBelow(x: string, y: string, z: string)
    requires Less(x, y) && !Less(z, y)
    ensures !Less(z, x)
  {
    if Less(z, x) { LessTransitive(z, x, y); }
  }

  /** Inserting `x` after every row it is not below and before the first row
      above it keeps the rows sorted and adds `x` once. */
  lemma InsertSorted(s: seq<Contact>, j: int, x: Contact)
    requires SortedByName(s) && 0 <= j <= |s|
    requires forall k :: 0 <= k < j ==> !Less(SortKey(x), SortKey(s[k]))
    requires j < |s| ==> Less(SortKey(x), SortKey(s[j]))
    ensures SortedByName(s[..j] + [x] + s[j..])
  {
    var t := s[..j] + [x] + s[j..];
    forall a, b | 0 <= a < b < |t| ensures !Less(SortKey(t[b]), SortKey(t[a])) {
      InsertSortedPair(s, j, x, a, b);
    }
  }

  /** Inserting adds exactly one occurrence of `x`. */
  lemma InsertCounts(s: seq<Contact>, j: int, x: Contact)
    requires 0 <= j <= |s|
    ensures multiset(s[..j] + [x] + s[j..]) == multiset(s) + multiset{x}
  {
    assert s == s[..j] + s[j..];
  }

  /** One pair of positions of the insertion above. */
  lemma InsertSortedPair(s: seq<Contact>, j: int, x: Contact, a: int, b: int)
    requires SortedByName(s) && 0 <= j <= |s|
    requires forall k :: 0 <= k < j ==> !Less(SortKey(x), SortKey(s[k]))
    requires j < |s| ==> Less(SortKey(x), SortKey(s[j]))
    requires 0 <= a < b <= |s|
    ensures var t := s[..j] + [x] + s[j..]; !Less(SortKey(t[b]), SortKey(t[a]))
  {
    var t := s[..j] + [x] + s[j..];
    var ta := if a < j then s[a] else if a == j then x else s[a - 1];
    var tb := if b < j then s[b] else if b == j then x else s[b - 1];
    assert t[a] == ta && t[b] == tb;
    if a == j {
      if b - 1 == j { LessIrreflexive(SortKey(s[j])); }
      NotBelow(SortKey(x), SortKey(s[j]), SortKey(s[b - 1]));
    }
  }

  /** The same insertion puts `x` after every row that has its sort key, so
      rows with equal keys keep their order. */
  lemma InsertStable(s: seq<Contact>, j: int, x: Contact, name: string)
    requires 0 <= j <= |s|
    requires forall m :: 0 <= m < |s[j..]| ==> SortKey(s[j..][m]) != SortKey(x)
    ensures WithName(s[..j] + [x] + s[j..], name) == WithName(s, name) + WithName([x], name)
  {
    var before, rest := s[..j], s[j..];
    assert s == before + rest;
    WithNameAppend(before + [x], rest, name);
    WithNameAppend(before, [x], name);
    WithNameAppend(before, rest, name);
    if SortKey(x) == name {
      WithNameNone(rest, name);
    } else {
      assert WithName([x], name) == [];
    }
  }

  /** Every row from the insertion point on has a sort key strictly above that of `x`. */
  lemma AboveHasOtherKeys(s: seq<Contact>, j: int, x: Contact)
    requires SortedByName(s) && 0 <= j <= |s|
    requires j < |s| ==> Less(SortKey(x), SortKey(s[j]))
    ensures forall m :: 0 <= m < |s[j..]| ==> SortKey(s[j..][m]) != SortKey(x)
  {
    LessIrreflexive(SortKey(x));
    forall m | 0 <= m < |s[j..]| ensures SortKey(s[j..][m]) != SortKey(x) {
      assert s[j..][m] == s[j + m];
      if m > 0 { assert !Less(SortKey(s[j + m]), SortKey(s[j])); }
    }
  }

  /** `list.sort(key=lambda item: item["display_name"].lower())`: a stable sort
      by lower-cased display name, written as an insertion sort. */
  method SortByName(items: seq<Contact>) returns (sorted: seq<Contact>)
    ensures SortedByName(sorted)
    ensures multiset(sorted) == multiset(items)
    ensures SameOrderPerName(sorted, items)
  {
    sorted := [];
    for i := 0 to |items|
      invariant SortedByName(sorted)
      invariant multiset(sorted) == multiset(items[..i])
      invariant SameOrderPerName(sorted, items[..i])
    {
      var x := items[i];
      var j := 0;
      while j < |sorted| && !Less(SortKey(x), SortKey(sorted[j]))
        invariant 0 <= j <= |sorted|
        invariant forall k :: 0 <= k < j ==> !Less(SortKey(x), SortKey(sorted[k]))
      {
        j := j + 1;
      }
      InsertSorted(sorted, j, x);
      InsertCounts(sorted, j, x);
      AboveHasOtherKeys(sorted, j, x);
      assert items[..i + 1] == items[..i] + [x];
      forall name
        ensures WithName(sorted[..j] + [x] + sorted[j..], name) == WithName(items[..i + 1], name)
      {
        InsertStable(sorted, j, x, name);
        WithNameAppend(items[..i], [x], name);
      }
      sorted := sorted[..j] + [x] + sorted[j..];
    }
    assert items[..|items|] == items;
  }

  /** The search loop of `build_dashboard_payload`, before sorting: walks the
      directory in insertion order and keeps a row for every other user whose
      name matches the normalised query. */
  method SearchMatches(users: Users, cs: Conversations, seen: SeenMarks, viewer: UserId,
                       queryLower: string, order: seq<UserId>) returns (rows: seq<Contact>)
    requires forall u :: u in order ==> u in users
    ensures rows == ContactsFor(users, cs, seen, viewer, MatchedUsers(users, viewer, queryLower, order))
  {
    rows := [];
    ghost var kept: seq<UserId> := [];
    for i := 0 to |order|
      invariant kept == MatchedUsers(users, viewer, queryLower, order[..i])
      invariant rows == ContactsFor(users, cs, seen, viewer, kept)
    {
      var username := order[i];
      assert order[..i + 1] == order[..i] + [username];
      if username != viewer && NameMatches(queryLower, users[username].displayName) {
        ContactsForSnoc(users, cs, seen, viewer, kept, username);
        rows := rows + [ContactFor(users, cs, seen, viewer, username)];
        kept := kept + [username];
      }
    }
    assert order[..|order|] == order;
  }

  /** The recent-contacts loop of `build_dashboard_payload`, before sorting:
      walks the conversation keys in insertion order and keeps a row for each
      registered partner of the viewer the first time it appears. */
  method CollectRecent(users: Users, cs: Conversations, seen: SeenMarks, viewer: UserId,
                       keys: seq<Key>) returns (rows: seq<Contact>)
    ensures rows == ContactsFor(users, cs, seen, viewer, RecentPartners(users, viewer, keys))
  {
    rows := [];
    var seenPartners: set<UserId> := {};
    ghost var kept: seq<UserId> := [];
    for i := 0 to |keys|
      invariant kept == RecentPartners(users, viewer, keys[..i])
      invariant rows == ContactsFor(users, cs, seen, viewer, kept)
      invariant forall p :: p in seenPartners <==> p in kept
    {
      var key := keys[i];
      assert keys[..i + 1] == keys[..i] + [key];
      if Involves(key, viewer) {
        var other := if key.first != viewer then key.first else key.second;
        if other in users && other !in seenPartners {
          ContactsForSnoc(users, cs, seen, viewer, kept, other);
          seenPartners := seenPartners + {other};
          rows := rows + [ContactFor(users, cs, seen, viewer, other)];
          kept := kept + [other];
        }
      }
    }
    assert keys[..|keys|] == keys;
  }

  /** Two sequences with the same multiset have the same members. */
  lemma SameMembers(a: seq<Contact>, b: seq<Contact>)
    requires multiset(a) == multiset(b)
    ensures forall c :: c in a <==> c in b
  {
    forall c: Contact ensures c in a <==> c in b {
      assert c in a <==> c in multiset(a);
      assert c in b <==> c in multiset(b);
    }
  }

  /** Duplicate-free rows, each of which is the row of its own user, never name
      a user twice. */
  lemma RowsOfOwnUsersDistinct(users: Users, cs: Conversations, seen: SeenMarks, viewer: UserId, rows: seq<Contact>)
    requires NoDuplicates(rows)
    requires forall c :: c in rows ==> c.username in users && c == ContactFor(users, cs, seen, viewer, c.username)
    ensures DistinctUsernames(rows)
  {
    forall i, j | 0 <= i < j < |rows| ensures rows[i].username != rows[j].username {
      assert rows[i] in rows && rows[j] in rows;
    }
  }

  /** A permutation of the rows for distinct users lists each user once, and
      lists exactly those users' rows. */
  lemma SortedRowsDistinct(users: Users, cs: Conversations, seen: SeenMarks, viewer: UserId,
                           names: seq<UserId>, rows: seq<Contact>)
    requires forall u :: u in names ==> u in users
    requires NoDuplicates(names)
    requires multiset(rows) == multiset(ContactsFor(users, cs, seen, viewer, names))
    ensures DistinctUsernames(rows)
    ensures forall c :: c in rows <==> c.username in names && c == ContactFor(users, cs, seen, viewer, c.username)
  {
    var listed := ContactsFor(users, cs, seen, viewer, names);
    ContactsForMembers(users, cs, seen, viewer, names);
    PermutationKeepsNoDuplicates(listed, rows);
    SameMembers(rows, listed);
    RowsOfOwnUsersDistinct(users, cs, seen, viewer, rows);
  }

}
