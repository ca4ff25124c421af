/**
 The per-viewer view of one stored message (the loop body of
 `serialize_messages`). The author reads what they typed, with the translation
 underneath; the other party reads the translation, with the original
 underneath. Names and languages are looked up in the directory at viewing
 time, not frozen at sending time.
 */
module Projection {
  import opened Directory
  import opened Store

  /** The caption above the secondary text: "Translated for <name> (<language>):"
      on one's own messages, "Original message in <language>:" on the other's. */
  datatype SecondaryLabel = TranslatedFor(partnerName: string, partnerLanguage: string) | OriginalIn(senderLanguage: string)

  datatype MessageView = MessageView(
    isSelf: bool,
    senderLabel: string,
    primaryText: string,
    secondaryLabel: SecondaryLabel,
    secondaryText: string,
    createdBy: UserId)

  /** The sender label of one's own messages. */
  const SelfLabel: string := "You"

  /** The view of `m` for `viewer` in the conversation with `partner`. */
  function Project(users: Users, viewer: UserId, partner: UserId, m: Message): (v: MessageView)
    requires partner in users
    requires m.sender != viewer ==> m.sender in users
    ensures v.isSelf <==> m.sender == viewer
    ensures v.createdBy == m.sender
    ensures v.primaryText in {m.originalText, m.translatedText}
    ensures v.secondaryText in {m.originalText, m.translatedText}
    ensures m.originalText != [] ==> v.primaryText != []
  {
    if m.sender == viewer then
      MessageView(true, SelfLabel, m.originalText,
                  TranslatedFor(users[partner].displayName, users[partner].language),
                  m.translatedText, m.sender)
    else
      MessageView(false, users[m.sender].displayName,
                  if m.translatedText != [] then m.translatedText else m.originalText,
                  OriginalIn(users[m.sender].language),
                  m.originalText, m.sender)
  }

  /** Which text is primary depends only on who wrote the message: the author
      sees their original first, anyone else sees the translation first
      (falling back to the original when the translation is empty). */
  lemma ProjectionChoosesText(users: Users, viewer: UserId, partner: UserId, m: Message)
    requires partner in users
    requires m.sender != viewer ==> m.sender in users
    ensures var v := Project(users, viewer, partner, m);
      if m.sender == viewer then
        v.senderLabel == SelfLabel && v.primaryText == m.originalText && v.secondaryText == m.translatedText
      else
        && v.senderLabel == users[m.sender].displayName
        && v.primaryText == (if m.translatedText == [] then m.originalText else m.translatedText)
        && v.secondaryText == m.originalText
  {
  }

  /** When the stored translation is non-empty, the two participants see the
      two versions swapped: what the author reads as secondary the addressee
      reads as primary, and the other way round. */
  lemma ViewsMirror(users: Users, m: Message)
    requires m.sender in users && m.recipient in users && m.sender != m.recipient
    requires m.translatedText != []
    ensures var mine := Project(users, m.sender, m.recipient, m);
      var theirs := Project(users, m.recipient, m.sender, m);
      && mine.primaryText == theirs.secondaryText
      && mine.secondaryText == theirs.primaryText
      && mine.isSelf && !theirs.isSelf
  {
  }

  /** When the stored translation is empty, the views are not swapped: the
      author reads the original over an empty secondary text, and the addressee
      reads the original as both primary (the fallback) and secondary text. */
  lemma EmptyTranslationShowsOriginal(users: Users, m: Message)
    requires m.sender in users && m.recipient in users && m.sender != m.recipient
    requires m.translatedText == []
    ensures var mine := Project(users, m.sender, m.recipient, m);
      var theirs := Project(users, m.recipient, m.sender, m);
      && mine.primaryText == m.originalText && mine.secondaryText == []
      && theirs.primaryText == m.originalText && theirs.secondaryText == m.originalText
  {
  }

  /** The author's view names the partner's current directory record and the
      addressee's view names the author's, so a later rename or change of
      language shows on old messages too. */
  lemma LabelsFollowDirectory(users: Users, viewer: UserId, partner: UserId, m: Message, rec: User)
    requires partner in users
    requires m.sender != viewer ==> m.sender in users
    ensures var who := if m.sender == viewer then partner else m.sender;
      var v := Project(users[who := rec], viewer, partner, m);
      if m.sender == viewer then v.secondaryLabel == TranslatedFor(rec.displayName, rec.language)
      else v.senderLabel == rec.displayName && v.secondaryLabel == OriginalIn(rec.language)
  {
  }

}
