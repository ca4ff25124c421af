/**
 The decisions of `send_message`: validate the partner, strip and reject an
 empty message, ask the translator, and either give up or store.
 */
module Send {
  import opened Base
  import opened Text
  import opened Directory
  import opened Store
  import opened Translation
  import opened Projection

  /** Why a send was not stored. */
  datatype SendError = InvalidConversation | EmptyMessage | TranslationFailed(diagnostic: string)

  /** What the request handler decided: store `text` with `translated` for
      `partnerKey`, or refuse. */
  datatype SendPlan = Rejected(error: SendError) | Accepted(partnerKey: UserId, text: string, translated: string)

  /** What `send_message` answers: the view of the stored message, or an error. */
  datatype SendOutcome = Sent(view: MessageView) | NotSent(error: SendError)

  /** The translator receives the message text and the partner's language. */
  type Translator = (string, string) -> ProviderResponse

  /** The text `send_message` works with: `(data.get("message") or "").strip()`. */
  function MessageText(message: Option<string>): string {
    Strip(match message case None => "" case Some(m) => m)
  }

  /** The decision of `send_message` for `user` writing to `partner`. */
  function PlanSend(users: Users, user: UserId, partner: string, message: Option<string>, translator: Translator): (p: SendPlan)
    ensures p == Rejected(InvalidConversation) <==> Lower(partner) !in users || Lower(partner) == user
    ensures p.Accepted? ==>
              && p.partnerKey == Lower(partner) && p.partnerKey in users && p.partnerKey != user
              && p.text == MessageText(message) && p.text != [] && Strip(p.text) == p.text
  {
    var partnerKey := Lower(partner);
    if partnerKey !in users || partnerKey == user then Rejected(InvalidConversation)
    else
      var text := MessageText(message);
      if text == [] then Rejected(EmptyMessage)
      else
        StripIdempotent(match message case None => "" case Some(m) => m);
        match TranslateMessage(text, translator(text, users[partnerKey].language))
        case TranslationFailure(d) => Rejected(TranslationFailed(d))
        case Translated(t) => Accepted(partnerKey, text, t)
  }

  /** A missing, empty or all-whitespace message is refused before the
      translator is asked. */
  lemma BlankMessageRejected(users: Users, user: UserId, partner: string, message: Option<string>, translator: Translator)
    requires Lower(partner) in users && Lower(partner) != user
    requires message.Some? ==> forall k :: 0 <= k < |message.value| ==> IsSpace(message.value[k])
    ensures PlanSend(users, user, partner, message, translator) == Rejected(EmptyMessage)
  {
    if message.Some? { StripBlankIff(message.value); }
  }

  /** A failing translator call is reported with its diagnostic and nothing is
      stored. */
  lemma TranslatorFailureRejected(users: Users, user: UserId, partner: string, message: Option<string>,
                                  translator: Translator, diagnostic: string)
    requires Lower(partner) in users && Lower(partner) != user && MessageText(message) != []
    requires translator(MessageText(message), users[Lower(partner)].language) == ProviderFailure(diagnostic)
    ensures PlanSend(users, user, partner, message, translator) == Rejected(TranslationFailed(diagnostic))
  {
  }

  /** A send is stored exactly when the partner is valid, the message is not
      blank and the translator answered; what is stored as the translation is
      `translate_message`'s result for the partner's language. */
  lemma AcceptedIffTranslated(users: Users, user: UserId, partner: string, message: Option<string>, translator: Translator)
    ensures var p := PlanSend(users, user, partner, message, translator);
      p.Accepted? <==>
        && Lower(partner) in users && Lower(partner) != user && MessageText(message) != []
        && translator(MessageText(message), users[Lower(partner)].language).Reply?
    ensures var p := PlanSend(users, user, partner, message, translator);
      p.Accepted? ==>
        TranslateMessage(p.text, translator(p.text, users[p.partnerKey].language)) == Translated(p.translated)
  {
  }

  /** A successful reply without text stores the message itself as its
      translation. */
  lemma EmptyReplyStoresOriginal(users: Users, user: UserId, partner: string, message: Option<string>, translator: Translator)
    requires Lower(partner) in users && Lower(partner) != user && MessageText(message) != []
    requires translator(MessageText(message), users[Lower(partner)].language) in {Reply(None), Reply(Some([]))}
    ensures PlanSend(users, user, partner, message, translator)
            == Accepted(Lower(partner), MessageText(message), MessageText(message))
  {
  }

}
