/**
  The model gateway of services/geminiService.ts: two chat sessions held in
  module variables, each created on first use and dropped when a call
  fails, and the one-shot speech request. What the hosted model answers is
  an input to each operation; the sessions it would remember are modelled
  as the turns exchanged in them.
 */
module GeminiService {
  import opened Wrappers
  import SpeechText

  /** One message sent in a chat and the text the model sent back. */
  datatype Turn = Turn(message: string, reply: string)

  /** A chat session: a fresh identity and the turns exchanged in it so far. */
  datatype Chat = Chat(id: nat, turns: seq<Turn>)

  /**
    `htmlChatSession` and `chatbotSession` (services/geminiService.ts:9-10);
    `created` counts the sessions ever made, so each new one is distinct.
   */
  datatype Sessions = Sessions(html: Option<Chat>, chatbot: Option<Chat>, created: nat)

  /** What the hosted model did with one message: answered, or the call threw. */
  datatype ModelReply = Replied(text: string) | CallFailed

  /** An operation's new sessions, and the text it resolves with or the message it rejects with. */
  datatype Call = Call(sessions: Sessions, result: Result<string, string>)

  /** No session exists when the module loads. */
  const Initial := Sessions(None, None, 0)

  const HtmlFailure := "Failed to communicate with the model. The session has been reset."
  const ChatbotFailure := "Failed to get a response from the chatbot. Please try again."
  const SpeechFailure := "Failed to generate speech. The model might be unavailable."

  /** What the speech request asks for before the page text (services/geminiService.ts:73). */
  const SpeechPrefix := "Read the following web page content: "

  /** Every session held has an identity below the count of sessions made. */
  predicate Valid(s: Sessions) {
    && (s.html.Some? ==> s.html.value.id < s.created)
    && (s.chatbot.Some? ==> s.chatbot.value.id < s.created)
  }

  /** The session to send in, and the count of sessions made once it exists. */
  datatype Opened = Opened(chat: Chat, created: nat)

  /**
    The session to send in: the one held, or a new empty one
    (services/geminiService.ts:16-23 and 42-49).
   */
  function Ensure(session: Option<Chat>, created: nat): Opened
  {
    match session
    case Some(chat) => Opened(chat, created)
    case None => Opened(Chat(created, []), created + 1)
  }

  /**
    `generateOrUpdateHtmlCode` (services/geminiService.ts:14-32): send the
    prompt in the HTML session, creating it if there is none. A reply is
    remembered in the session and returned; a failure drops the session
    and rejects with a fixed message.
   */
  function GenerateOrUpdateHtml(s: Sessions, prompt: string, reply: ModelReply): (r: Call)
    requires Valid(s)
    ensures Valid(r.sessions)
    ensures r.sessions.chatbot == s.chatbot
    ensures r.result.Success? <==> reply.Replied?
    ensures reply.CallFailed? ==> r.sessions.html.None? && r.result == Failure(HtmlFailure)
    ensures reply.Replied? ==> r.result == Success(reply.text) && r.sessions.html.Some?
    ensures reply.Replied? && s.html.Some? ==>
      r.sessions.html == Some(Chat(s.html.value.id, s.html.value.turns + [Turn(prompt, reply.text)]))
      && r.sessions.created == s.created
    ensures reply.Replied? && s.html.None? ==>
      r.sessions.html == Some(Chat(s.created, [Turn(prompt, reply.text)]))
      && r.sessions.created == s.created + 1
  {
    var held := Ensure(s.html, s.created);
    match reply
    case Replied(text) =>
      var chat := held.chat.(turns := held.chat.turns + [Turn(prompt, text)]);
      assert s.html.None? ==> chat.turns == [Turn(prompt, text)];
      Call(s.(html := Some(chat), created := held.created), Success(text))
    case CallFailed =>
      Call(ResetHtmlChatSession(s.(created := held.created)), Failure(HtmlFailure))
  }

  /** `resetHtmlChatSession` (services/geminiService.ts:34-36). */
  function ResetHtmlChatSession(s: Sessions): (r: Sessions)
    ensures r.html.None?
    ensures r.chatbot == s.chatbot && r.created == s.created
    ensures Valid(s) ==> Valid(r)
  {
    s.(html := None)
  }

  /**
    `askChatbot` (services/geminiService.ts:40-57): the same protocol on
    the chatbot session, with its own failure message.
   */
  function AskChatbot(s: Sessions, prompt: string, reply: ModelReply): (r: Call)
    requires Valid(s)
    ensures Valid(r.sessions)
    ensures r.sessions.html == s.html
    ensures r.result.Success? <==> reply.Replied?
    ensures reply.CallFailed? ==> r.sessions.chatbot.None? && r.result == Failure(ChatbotFailure)
    ensures reply.Replied? ==> r.result == Success(reply.text) && r.sessions.chatbot.Some?
    ensures reply.Replied? && s.chatbot.Some? ==>
      r.sessions.chatbot == Some(Chat(s.chatbot.value.id, s.chatbot.value.turns + [Turn(prompt, reply.text)]))
      && r.sessions.created == s.created
    ensures reply.Replied? && s.chatbot.None? ==>
      r.sessions.chatbot == Some(Chat(s.created, [Turn(prompt, reply.text)]))
      && r.sessions.created == s.created + 1
  {
    var held := Ensure(s.chatbot, s.created);
    match reply
    case Replied(text) =>
      var chat := held.chat.(turns := held.chat.turns + [Turn(prompt, text)]);
      assert s.chatbot.None? ==> chat.turns == [Turn(prompt, text)];
      Call(s.(chatbot := Some(chat), created := held.created), Success(text))
    case CallFailed =>
      Call(s.(chatbot := None, created := held.created), Failure(ChatbotFailure))
  }

  // ---------------------------------------------------------------------
  // Speech

  /**
    What the speech model did: sent audio (the `data` of the first inline
    part, possibly empty), sent a response without it, or the call threw.
   */
  datatype SpeechReply = Audio(data: string) | NoAudio | SpeechCallFailed

  /** The request sent to the speech model, if any, and the outcome of `generateSpeechFromText`. */
  datatype SpeechCall = SpeechCall(request: Option<string>, result: Result<string, string>)

  /**
    `generateSpeechFromText` (services/geminiService.ts:60-93). Nothing is
    sent when the page has no text to read. An empty or missing audio
    payload is an error, and every error reaches the caller as the one
    rewrapped message.
   */
  function GenerateSpeech(html: string, reply: SpeechReply): (r: SpeechCall)
    ensures r.request.None? <==> SpeechText.Normalize(html) == []
    ensures r.request.Some? ==> r.request.value == SpeechPrefix + SpeechText.Normalize(html)
    ensures r.result.Success? <==> r.request.Some? && reply.Audio? && reply.data != []
    ensures r.result.Success? ==> r.result.value == reply.data
    ensures r.result.Failure? ==> r.result.error == SpeechFailure
  {
    var plainText := SpeechText.Normalize(html);
    if |plainText| == 0 then SpeechCall(None, Failure(SpeechFailure))
    else
      var request := Some(SpeechPrefix + plainText);
      match reply
      case Audio(data) =>
        if |data| == 0 then SpeechCall(request, Failure(SpeechFailure)) else SpeechCall(request, Success(data))
      case NoAudio => SpeechCall(request, Failure(SpeechFailure))
      case SpeechCallFailed => SpeechCall(request, Failure(SpeechFailure))
  }

  // ---------------------------------------------------------------------
  // Properties

  /** The HTML session is made once and then reused: two answered prompts land in the same session, in order. */
  lemma HtmlSessionReused(s: Sessions, first: string, second: string, a: string, b: string)
    requires Valid(s)
    ensures var one := GenerateOrUpdateHtml(s, first, Replied(a)).sessions;
      var two := GenerateOrUpdateHtml(one, second, Replied(b)).sessions;
      && two.html.Some? && two.html.value.id == one.html.value.id
      && two.html.value.turns == one.html.value.turns + [Turn(second, b)]
      && two.created == one.created
      && (s.html.Some? ==> one.html.value.id == s.html.value.id && two.created == s.created)
  {
  }

  /** After a failure the next prompt starts a new, empty session, distinct from every earlier one. */
  lemma HtmlFailureStartsOver(s: Sessions, first: string, second: string, b: string)
    requires Valid(s)
    ensures var one := GenerateOrUpdateHtml(s, first, CallFailed).sessions;
      var two := GenerateOrUpdateHtml(one, second, Replied(b)).sessions;
      && two.html == Some(Chat(one.created, [Turn(second, b)]))
      && (s.html.Some? ==> two.html.value.id != s.html.value.id)
      && (s.chatbot.Some? ==> two.html.value.id != s.chatbot.value.id)
  {
  }

  /** Resetting twice is resetting once. */
  lemma ResetIdempotent(s: Sessions)
    ensures ResetHtmlChatSession(ResetHtmlChatSession(s)) == ResetHtmlChatSession(s)
  {
  }

  /** The two sessions never interfere: a failure in one leaves the other as it was. */
  lemma SessionsIndependent(s: Sessions, prompt: string, reply: ModelReply)
    requires Valid(s)
    ensures GenerateOrUpdateHtml(s, prompt, reply).sessions.chatbot == s.chatbot
    ensures AskChatbot(s, prompt, reply).sessions.html == s.html
    ensures ResetHtmlChatSession(s).chatbot == s.chatbot
  {
  }

  /** A chatbot failure followed by a new question opens a new chatbot session; the HTML session survives both. */
  lemma ChatbotFailureStartsOver(s: Sessions, first: string, second: string, b: string)
    requires Valid(s)
    ensures var one := AskChatbot(s, first, CallFailed).sessions;
      var two := AskChatbot(one, second, Replied(b)).sessions;
      && two.chatbot == Some(Chat(one.created, [Turn(second, b)]))
      && two.html == s.html
  {
  }

  /**
    What is asked of the speech model is the prefix and then a non-empty
    text with no tag, no white space at its ends and no run of white space
    (services/geminiService.ts:63-73).
   */
  lemma SpeechRequestShape(html: string, reply: SpeechReply)
    ensures var r := GenerateSpeech(html, reply);
      r.request.Some? ==>
        var spoken := r.request.value[|SpeechPrefix|..];
        && r.request.value[..|SpeechPrefix|] == SpeechPrefix
        && spoken != []
        && SpeechText.TagFree(spoken) && SpeechText.Trimmed(spoken) && SpeechText.Collapsed(spoken)
  {
    var n := SpeechText.Normalize(html);
    SpeechText.NormalizeTagFree(html);
    SpeechText.NormalizeShape(html);
    assert (SpeechPrefix + n)[|SpeechPrefix|..] == n;
    assert (SpeechPrefix + n)[..|SpeechPrefix|] == SpeechPrefix;
  }

  /** A blank text is never sent: the call fails with the speech message and makes no request. */
  lemma BlankTextNotSent(html: string, reply: SpeechReply)
    requires forall i :: 0 <= i < |html| ==> SpeechText.IsJsSpace(html[i])
    ensures GenerateSpeech(html, reply) == SpeechCall(None, Failure(SpeechFailure))
  {
    assert '<' !in html by {
      forall i | 0 <= i < |html| ensures html[i] != '<' {
        assert SpeechText.IsJsSpace(html[i]);
      }
    }
    SpeechText.NormalizeWithoutMarkup(html);
    SpeechText.NormalizeShape(html);
    SpeechText.VisibleOfSpaces(html);
  }

  /** Text without markup that has a visible character is always sent. */
  lemma PlainTextSent(html: string, reply: SpeechReply, i: nat)
    requires '<' !in html && i < |html| && !SpeechText.IsJsSpace(html[i])
    ensures GenerateSpeech(html, reply).request.Some?
  {
    SpeechText.NormalizeWithoutMarkup(html);
    VisibleHas(html, i);
  }

  lemma {:induction false} VisibleHas(s: string, i: nat)
    requires i < |s| && !SpeechText.IsJsSpace(s[i])
    ensures s[i] in SpeechText.Visible(s)
    decreases i
  {
    if i > 0 {
      VisibleHas(s[1..], i - 1);
    }
  }
}
