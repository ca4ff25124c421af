/**
 The user directory: `users` maps a lower-cased id to a display name and a
 preferred language. Records are created at first login and never removed.
 */
module Directory {
  import opened Text

  type UserId = string

  /** One directory record: the name as last typed and the language label. */
  datatype User = User(displayName: string, language: string)

  type Users = map<UserId, User>

  /** What the login form leads to. */
  datatype LoginError = MissingUsername | MissingLanguage
  datatype LoginOutcome = LoggedIn(id: UserId) | Refused(error: LoginError)

  /** Every record is filed under the lower-cased form of its display name, and
      neither its name nor its language is blank or padded with whitespace. */
  ghost predicate DirectoryValid(users: Users) {
    forall u :: u in users ==>
      && users[u].displayName != [] && Trimmed(users[u].displayName)
      && Lower(users[u].displayName) == u
      && users[u].language != [] && Trimmed(users[u].language)
  }

  /** The upsert of the login form: the typed name and language are stripped;
      a blank name is refused; a known id gets its display name replaced (case
      kept) and its language replaced only by a non-blank one; an unknown id is
      registered only when a language is given. The result is the outcome and
      the new directory. */
  function LoginUpsert(users: Users, username: string, language: string): (r: (LoginOutcome, Users))
    ensures r.0.Refused? ==> r.1 == users
    ensures r.0 == Refused(MissingUsername) <==> Strip(username) == []
    ensures r.0 == Refused(MissingLanguage) <==>
              Strip(username) != [] && Lower(Strip(username)) !in users && Strip(language) == []
    ensures r.0.LoggedIn? ==>
              && r.0.id == Lower(Strip(username))
              && r.1 == users[r.0.id := User(Strip(username),
                                             if Strip(language) != [] then Strip(language)
                                             else users[r.0.id].language)]
  {
    var name := Strip(username);
    var lang := Strip(language);
    if name == [] then (Refused(MissingUsername), users)
    else
      var id := Lower(name);
      if id in users then
        (LoggedIn(id), users[id := User(name, if lang != [] then lang else users[id].language)])
      else if lang == [] then (Refused(MissingLanguage), users)
      else (LoggedIn(id), users[id := User(name, lang)])
  }

  /** Logging in keeps the directory well formed; in particular no record ever
      loses its language. */
  lemma LoginKeepsDirectoryValid(users: Users, username: string, language: string)
    requires DirectoryValid(users)
    ensures DirectoryValid(LoginUpsert(users, username, language).1)
  {
    var name, lang := Strip(username), Strip(language);
    if name != [] {
      var id := Lower(name);
      if id in users || lang != [] {
        var record := User(name, if lang != [] then lang else users[id].language);
        assert LoginUpsert(users, username, language).1 == users[id := record];
        RecordKeepsDirectoryValid(users, id, record);
      }
    }
  }

  /** Filing a well-formed record under its own id keeps the directory valid. */
  lemma RecordKeepsDirectoryValid(users: Users, id: UserId, record: User)
    requires DirectoryValid(users)
    requires record.displayName != [] && Trimmed(record.displayName)
    requires Lower(record.displayName) == id
    requires record.language != [] && Trimmed(record.language)
    ensures DirectoryValid(users[id := record])
  {
  }

  /** Names that differ only in ASCII case or surrounding whitespace reach the
      same record, and a successful login never removes or re-files anyone. */
  lemma LoginIdentity(users: Users, name1: string, name2: string, language: string)
    requires Lower(Strip(name1)) == Lower(Strip(name2)) && Strip(name1) != []
    ensures LoginUpsert(users, name1, language).0.LoggedIn? ==>
              LoginUpsert(users, name2, language).0 == LoginUpsert(users, name1, language).0
    ensures users.Keys <= LoginUpsert(users, name1, language).1.Keys
  {
    assert |Strip(name2)| == |Strip(name1)|;
  }

  /** Submitting the same login form twice in a row has the effect of
      submitting it once. */
  lemma LoginIdempotent(users: Users, username: string, language: string)
    ensures var first := LoginUpsert(users, username, language);
      LoginUpsert(first.1, username, language) == first
  {
    var first := LoginUpsert(users, username, language);
    if first.0.LoggedIn? {
      UpsertAgain(users, first.0.id, Strip(username), Strip(language));
    }
  }

  /** Filing the login record a second time changes nothing. */
  lemma UpsertAgain(users: Users, id: UserId, name: string, lang: string)
    requires id in users || lang != []
    ensures var record := User(name, if lang != [] then lang else users[id].language);
      var after := users[id := record];
      id in after && after[id := User(name, if lang != [] then lang else after[id].language)] == after
  {
  }

}
