/**
 The translation step of sending a message. The translation provider is an
 oracle: the model receives its answer as a value and only decides what the
 core does with it.
 */
module Translation {
  import opened Base
  import opened Text

  /** What the provider call produced: a reply whose `text` may be missing, or
      an exception carrying the provider's diagnostic. */
  datatype ProviderResponse = Reply(text: Option<string>) | ProviderFailure(diagnostic: string)

  /** What `translate_message` hands back to `send_message`. */
  datatype Translation = Translated(text: string) | TranslationFailure(diagnostic: string)

  /** `translate_message`: a failing call fails; a reply with no text or empty
      text falls back to the message itself; any other reply is stripped. */
  function TranslateMessage(message: string, response: ProviderResponse): (t: Translation)
    ensures t.TranslationFailure? <==> response.ProviderFailure?
    ensures t.TranslationFailure? ==> t.diagnostic == response.diagnostic
    ensures response == Reply(None) || response == Reply(Some([])) ==> t == Translated(message)
    ensures response.Reply? && response.text.Some? && response.text.value != [] ==>
              t == Translated(Strip(response.text.value))
  {
    match response
    case ProviderFailure(d) => TranslationFailure(d)
    case Reply(None) => Translated(message)
    case Reply(Some(text)) => if text == [] then Translated(message) else Translated(Strip(text))
  }

  /** A reply that is missing or empty is not a failure: the original text is
      stored as the translation. */
  lemma EmptyReplyFallsBack(message: string, response: ProviderResponse)
    requires response == Reply(None) || response == Reply(Some([]))
    ensures TranslateMessage(message, response) == Translated(message)
  {
  }

  /** A stored translation never carries surrounding whitespace when the
      message did not (`send_message` passes an already stripped message). */
  lemma TranslationIsTrimmed(message: string, response: ProviderResponse)
    requires Strip(message) == message
    requires TranslateMessage(message, response).Translated?
    ensures var t := TranslateMessage(message, response).text;
      t != [] ==> !IsSpace(t[0]) && !IsSpace(t[|t| - 1])
  {
    var t := TranslateMessage(message, response);
    if t.text != message {
      var reply := Strip(response.text.value);
      assert t.text == reply;
    } else {
      var same := Strip(message);
      assert t.text == same;
    }
  }

  /** A reply made only of whitespace is not empty, so it does not fall back:
      it is stripped to the empty string and that is what is stored. */
  lemma BlankReplyStoresEmpty(message: string, text: string)
    requires text != [] && forall k :: 0 <= k < |text| ==> IsSpace(text[k])
    ensures TranslateMessage(message, Reply(Some(text))) == Translated([])
  {
    StripBlankIff(text);
  }

}
