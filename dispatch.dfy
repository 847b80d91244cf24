/** Choosing the interpreter: the language model when an Anthropic key is
    set, falling back to the rules on any failure; the rules otherwise. */
module Dispatch {
  import opened JsString
  import opened Rules
  import opened TagTable

  /** What the request to the language model comes to: the text of the
      first content block of the reply, or a failure of any kind (the
      network, a status that is not ok, a body without that text). */
  datatype LmReply = Ok(text: String) | Err

  /** `interpretWithClaude`: the trimmed reply text, unchecked, or the
      rules when the request fails. */
  function LmMarkup(sacredText: String, feedback: String, currentMarkup: String, reply: LmReply): String {
    match reply
    case Ok(text) => Trim(text)
    case Err => RulesMarkup(sacredText, feedback, currentMarkup)
  }

  /** `interpretFeedback` */
  function FeedbackMarkup(anthropicKey: String, sacredText: String, feedback: String, currentMarkup: String,
                          reply: LmReply): String {
    if anthropicKey != [] then LmMarkup(sacredText, feedback, currentMarkup, reply)
    else RulesMarkup(sacredText, feedback, currentMarkup)
  }

  method InterpretWithClaude(sacredText: String, feedback: String, currentMarkup: String, reply: LmReply)
    returns (markup: String)
    ensures markup == LmMarkup(sacredText, feedback, currentMarkup, reply)
  {
    match reply {
      case Ok(text) =>
        markup := Trim(text);
      case Err =>
        markup := InterpretWithRules(sacredText, feedback, currentMarkup);
    }
  }

  method InterpretFeedback(anthropicKey: String, sacredText: String, feedback: String, currentMarkup: String,
                           reply: LmReply)
    returns (markup: String)
    ensures markup == FeedbackMarkup(anthropicKey, sacredText, feedback, currentMarkup, reply)
  {
    if anthropicKey != [] {
      markup := InterpretWithClaude(sacredText, feedback, currentMarkup, reply);
    } else {
      markup := InterpretWithRules(sacredText, feedback, currentMarkup);
    }
  }

  // ---------------------------------------------------------------------

  /** Without a key, and with a key whenever the request fails, the markup
      is exactly what the rules give; with a key and a reply it is the
      trimmed reply. */
  lemma FallbackToRules(anthropicKey: String, sacredText: String, feedback: String, currentMarkup: String,
                        reply: LmReply)
    ensures anthropicKey == [] || reply == Err ==>
      FeedbackMarkup(anthropicKey, sacredText, feedback, currentMarkup, reply)
        == RulesMarkup(sacredText, feedback, currentMarkup)
    ensures anthropicKey != [] && reply.Ok? ==>
      FeedbackMarkup(anthropicKey, sacredText, feedback, currentMarkup, reply) == Trim(reply.text)
  {
  }

  /** Whichever interpreter answers, the markup has no space at either
      edge. */
  lemma MarkupIsTrimmed(anthropicKey: String, sacredText: String, feedback: String, currentMarkup: String,
                        reply: LmReply)
    ensures Trim(FeedbackMarkup(anthropicKey, sacredText, feedback, currentMarkup, reply))
      == FeedbackMarkup(anthropicKey, sacredText, feedback, currentMarkup, reply)
  {
    if anthropicKey != [] && reply.Ok? {
      TrimIdempotent(reply.text);
    } else {
      var base := Base(sacredText, currentMarkup);
      var placed := Place(base, TagToken(ChooseTag(feedback)), ChoosePlacement(sacredText, feedback));
      TrimIdempotent(CollapseSpaces(placed));
    }
  }

  /** The reply is not checked against the sacred text: with a key, a reply
      of spaces alone empties the markup, whatever the text. */
  lemma ReplyIsUnchecked(anthropicKey: String, sacredText: String, feedback: String, currentMarkup: String,
                         spaces: String)
    requires anthropicKey != [] && AllSpace(spaces)
    ensures FeedbackMarkup(anthropicKey, sacredText, feedback, currentMarkup, Ok(spaces)) == []
  {
    TrimStartOf(spaces, []);
    assert spaces + [] == spaces;
  }
}
