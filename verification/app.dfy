/**
  The page component of App.tsx: its state and the handlers that change
  it. Each handler runs to completion in one step; what the hosted models
  answer is an input, and the audio player is the controller of the
  AudioPlayer module as written, driven only as the page's controls
  allow.
 */
module App {
  import opened Wrappers
  import SpeechText
  import GeminiService
  import AudioPlayer

  /** The placeholder shown before anything is generated (App.tsx:18). */
  const InitialHtmlContent := "<div class=\"flex items-center justify-center h-full text-gray-500 font-sans p-8 text-center\">Your HTML preview will appear here. Describe what you want to build and click \"Generate\".</div>"

  const EmptyPromptMessage := "Please enter a description or a change request."

  /** The chatbot's first message (App.tsx:40-42). */
  const Greeting := "Hello! I am a web development assistant. How can I help you today?"

  datatype Role = User | Model

  datatype Message = Message(role: Role, content: string)

  /**
    The `message` of a caught error: one of the service's fixed texts, or
    the platform's own message for an exception thrown by the player.
   */
  datatype ErrorText = Text(message: string) | Platform(cause: AudioPlayer.PlayError)

  datatype AppState = AppState(
    prompt: string,
    generatedHtml: string,
    isGenerating: bool,
    isSynthesizing: bool,
    error: Option<ErrorText>,
    isChatStarted: bool,
    chatHistory: seq<string>,
    chatbotMessages: seq<Message>,
    isChatbotLoading: bool,
    chatbotError: Option<string>,
    sessions: GeminiService.Sessions,   // the service module's two sessions
    player: AudioPlayer.Player)         // the audio hook

  /** The first render (App.tsx:31-46), with no session and an idle player. */
  const Initial := AppState("", InitialHtmlContent, false, false, None, false, [], [Message(Model, Greeting)],
                            false, None, GeminiService.Initial, AudioPlayer.Initial)

  predicate Valid(app: AppState) {
    GeminiService.Valid(app.sessions) && AudioPlayer.Valid(app.player)
  }

  /** The prompts of the turns of a session, in order. */
  function Prompts(turns: seq<GeminiService.Turn>): (r: seq<string>)
    ensures |r| == |turns|
    ensures forall i :: 0 <= i < |turns| ==> r[i] == turns[i].message
  {
    seq(|turns|, i requires 0 <= i < |turns| => turns[i].message)
  }

  /**
    `handleGenerate` (App.tsx:48-73). A prompt that trims to nothing only
    sets the error. Otherwise the prompt goes to the HTML session; a reply
    becomes the page and the prompt joins the history, a failure clears
    the chat and shows the service's message.
   */
  function HandleGenerate(app: AppState, reply: GeminiService.ModelReply): (r: AppState)
    requires Valid(app)
    ensures Valid(r)
    ensures !r.isGenerating || (SpeechText.Trim(app.prompt) == [] && r.isGenerating == app.isGenerating)
    ensures SpeechText.Trim(app.prompt) == [] ==> r == app.(error := Some(Text(EmptyPromptMessage)))
    ensures SpeechText.Trim(app.prompt) != [] && reply.Replied? ==>
      && r.generatedHtml == reply.text
      && r.isChatStarted
      && r.chatHistory == app.chatHistory + [app.prompt]
      && r.prompt == []
      && r.error.None?
    ensures SpeechText.Trim(app.prompt) != [] && reply.CallFailed? ==>
      && r.error == Some(Text(GeminiService.HtmlFailure))
      && !r.isChatStarted
      && r.chatHistory == []
      && r.sessions.html.None?
      && r.generatedHtml == app.generatedHtml
      && r.prompt == app.prompt
    ensures r.sessions.chatbot == app.sessions.chatbot
    ensures r.player == app.player && r.chatbotMessages == app.chatbotMessages && r.isSynthesizing == app.isSynthesizing
  {
    if SpeechText.Trim(app.prompt) == [] then app.(error := Some(Text(EmptyPromptMessage)))
    else
      var call := GeminiService.GenerateOrUpdateHtml(app.sessions, app.prompt, reply);
      match call.result
      case Success(html) =>
        app.(generatedHtml := html, isChatStarted := true, chatHistory := app.chatHistory + [app.prompt],
             prompt := [], error := None, isGenerating := false, sessions := call.sessions)
      case Failure(message) =>
        app.(error := Some(Text(message)), isChatStarted := false, chatHistory := [],
             sessions := GeminiService.ResetHtmlChatSession(call.sessions), isGenerating := false)
  }

  /** `handleReset` (App.tsx:75-83). */
  function HandleReset(app: AppState): (r: AppState)
    requires Valid(app)
    ensures Valid(r)
    ensures r.prompt == [] && r.generatedHtml == InitialHtmlContent && r.error.None?
    ensures !r.isChatStarted && r.chatHistory == [] && r.sessions.html.None?
    ensures r.player == AudioPlayer.Stop(app.player)
    ensures r.sessions.chatbot == app.sessions.chatbot && r.chatbotMessages == app.chatbotMessages
  {
    app.(player := AudioPlayer.Stop(app.player), prompt := [], generatedHtml := InitialHtmlContent, error := None,
         isChatStarted := false, chatHistory := [], sessions := GeminiService.ResetHtmlChatSession(app.sessions))
  }

  /** There is a page to read out: neither empty nor the placeholder (App.tsx:86). */
  predicate HasPage(app: AppState) {
    app.generatedHtml != [] && app.generatedHtml != InitialHtmlContent
  }

  /**
    `handlePlayAudio` (App.tsx:85-97): ask for speech of the page and play
    it. The speech service's message or the player's exception becomes
    the error.
   */
  function HandlePlayAudio(app: AppState, speech: GeminiService.SpeechReply): (r: AppState)
    requires Valid(app)
    ensures Valid(r)
    ensures !HasPage(app) ==> r == app
    ensures HasPage(app) ==> !r.isSynthesizing
    ensures HasPage(app) ==>
      var call := GeminiService.GenerateSpeech(app.generatedHtml, speech);
      && (call.result.Failure? ==> r.error == Some(Text(GeminiService.SpeechFailure)) && r.player == app.player)
      && (call.result.Success? ==>
            var step := AudioPlayer.Play(app.player, call.result.value);
            r.player == step.player
            && (step.failure.None? ==> r.error.None?)
            && (step.failure.Some? ==> r.error == Some(Platform(step.failure.value))))
    ensures r.generatedHtml == app.generatedHtml && r.sessions == app.sessions && r.chatHistory == app.chatHistory
    ensures r.prompt == app.prompt && r.isChatStarted == app.isChatStarted && r.chatbotMessages == app.chatbotMessages
  {
    if !HasPage(app) then app
    else
      match GeminiService.GenerateSpeech(app.generatedHtml, speech).result
      case Failure(message) => app.(error := Some(Text(message)), isSynthesizing := false)
      case Success(base64Audio) =>
        var step := AudioPlayer.Play(app.player, base64Audio);
        var error := match step.failure case None => None case Some(e) => Some(Platform(e));
        app.(player := step.player, error := error, isSynthesizing := false)
  }

  /** `handleStopAudio` (App.tsx:99-101). */
  function HandleStopAudio(app: AppState): (r: AppState)
    requires Valid(app)
    ensures Valid(r)
    ensures r.player.current == app.player.current && r.player.isPlaying == app.player.isPlaying
    ensures app.player.current.Some? ==> r.player.sources[app.player.current.value].state != AudioPlayer.Playing
    ensures app.player.current.None? ==> r == app
    ensures r.(player := app.player) == app
  {
    app.(player := AudioPlayer.Stop(app.player))
  }

  /**
    `handleChatbotSend` (App.tsx:103-116): the user's message is shown at
    once; the chatbot's reply follows it, or its failure message is shown.
   */
  function HandleChatbotSend(app: AppState, message: string, reply: GeminiService.ModelReply): (r: AppState)
    requires Valid(app)
    ensures Valid(r)
    ensures !r.isChatbotLoading
    ensures reply.Replied? ==>
      r.chatbotMessages == app.chatbotMessages + [Message(User, message), Message(Model, reply.text)]
      && r.chatbotError.None?
    ensures reply.CallFailed? ==>
      r.chatbotMessages == app.chatbotMessages + [Message(User, message)]
      && r.chatbotError == Some(GeminiService.ChatbotFailure)
    ensures r.sessions.html == app.sessions.html && r.chatHistory == app.chatHistory && r.generatedHtml == app.generatedHtml
    ensures r.error == app.error && r.player == app.player
  {
    var shown := app.chatbotMessages + [Message(User, message)];
    var call := GeminiService.AskChatbot(app.sessions, message, reply);
    match call.result
    case Success(response) =>
      app.(chatbotMessages := shown + [Message(Model, response)], chatbotError := None,
           isChatbotLoading := false, sessions := call.sessions)
    case Failure(e) =>
      app.(chatbotMessages := shown, chatbotError := Some(e), isChatbotLoading := false, sessions := call.sessions)
  }

  // ---------------------------------------------------------------------
  // The page as a whole

  /** Everything that can happen to the page: the user's actions and the player's "ended" events. */
  datatype Action =
    | EditPrompt(text: string)
    | Generate(reply: GeminiService.ModelReply)
    | Reset
    | PlayAudio(speech: GeminiService.SpeechReply)
    | StopAudio
    | ChatbotSend(message: string, answer: GeminiService.ModelReply)
    | AudioEnded(source: nat)

  /**
    An "ended" event comes only from a source that has not ended yet, and
    "Read Aloud" is offered only while audio is neither being synthesised
    nor playing: otherwise the editor panel shows "Stop" in its place
    (components/EditorPanel.tsx:65, 172-188).
   */
  predicate CanHappen(app: AppState, a: Action) {
    && (a.AudioEnded? ==> AudioPlayer.CanEnd(app.player, a.source))
    && (a.PlayAudio? ==> !app.player.isPlaying && !app.isSynthesizing)
  }

  /**
    One action on the page. The chatbot's messages only grow, no audio
    source is forgotten, and the page, the HTML session and the chatbot
    session each change only through the handlers that own them.
   */
  function Step(app: AppState, a: Action): (r: AppState)
    requires Valid(app) && CanHappen(app, a)
    ensures Valid(r)
    ensures |r.chatbotMessages| >= |app.chatbotMessages|
    ensures r.chatbotMessages[..|app.chatbotMessages|] == app.chatbotMessages
    ensures |r.player.sources| >= |app.player.sources|
    ensures r.generatedHtml != app.generatedHtml ==> a.Generate? || a.Reset?
    ensures r.sessions.html != app.sessions.html ==> a.Generate? || a.Reset?
    ensures r.sessions.chatbot != app.sessions.chatbot ==> a.ChatbotSend?
  {
    match a
    case EditPrompt(text) => app.(prompt := text)
    case Generate(reply) => HandleGenerate(app, reply)
    case Reset => HandleReset(app)
    case PlayAudio(speech) => HandlePlayAudio(app, speech)
    case StopAudio => HandleStopAudio(app)
    case ChatbotSend(message, answer) => HandleChatbotSend(app, message, answer)
    case AudioEnded(source) => app.(player := AudioPlayer.Ended(app.player, source))
  }

  /**
    The page's bookkeeping agrees with the service: the chat is marked
    started exactly while the HTML session exists, the history shown is
    the prompts sent in that session, the chatbot's greeting stays first,
    and every audio source but the current one has ended.
   */
  predicate Consistent(app: AppState) {
    && Valid(app)
    && (app.isChatStarted <==> app.sessions.html.Some?)
    && app.chatHistory == (if app.sessions.html.Some? then Prompts(app.sessions.html.value.turns) else [])
    && |app.chatbotMessages| > 0 && app.chatbotMessages[0] == Message(Model, Greeting)
    && AudioPlayer.Tidy(app.player)
  }

  lemma InitialConsistent()
    ensures Consistent(Initial)
  {
  }

  lemma PromptsAppend(turns: seq<GeminiService.Turn>, t: GeminiService.Turn)
    ensures Prompts(turns + [t]) == Prompts(turns) + [t.message]
  {
  }

  /** Every action keeps the page consistent. */
  lemma StepKeepsConsistent(app: AppState, a: Action)
    requires Consistent(app) && CanHappen(app, a)
    ensures Consistent(Step(app, a))
  {
    match a
    case Generate(reply) => GenerateKeepsConsistent(app, reply);
    case PlayAudio(speech) => PlayKeepsConsistent(app, speech);
    case StopAudio => StopKeepsConsistent(app);
    case Reset => ResetKeepsConsistent(app);
    case AudioEnded(source) => AudioPlayer.EndedKeepsTidy(app.player, source);
    case EditPrompt(_) =>
    case ChatbotSend(message, answer) => ChatbotKeepsConsistent(app, message, answer);
  }

  lemma GenerateKeepsConsistent(app: AppState, reply: GeminiService.ModelReply)
    requires Consistent(app)
    ensures Consistent(HandleGenerate(app, reply))
  {
    if SpeechText.Trim(app.prompt) != [] {
      match reply
      case Replied(text) => GenerateRepliedKeepsConsistent(app, text);
      case CallFailed => GenerateFailedKeepsConsistent(app);
    }
  }

  lemma GenerateRepliedKeepsConsistent(app: AppState, text: string)
    requires Consistent(app) && SpeechText.Trim(app.prompt) != []
    ensures Consistent(HandleGenerate(app, GeminiService.Replied(text)))
  {
    var r := HandleGenerate(app, GeminiService.Replied(text));
    var t := GeminiService.Turn(app.prompt, text);
    if app.sessions.html.Some? {
      PromptsAppend(app.sessions.html.value.turns, t);
      assert r.sessions.html.value.turns == app.sessions.html.value.turns + [t];
    } else {
      assert r.sessions.html.value.turns == [t];
    }
  }

  lemma GenerateFailedKeepsConsistent(app: AppState)
    requires Consistent(app) && SpeechText.Trim(app.prompt) != []
    ensures Consistent(HandleGenerate(app, GeminiService.CallFailed))
  {
  }

  lemma PlayKeepsConsistent(app: AppState, speech: GeminiService.SpeechReply)
    requires Consistent(app) && !app.player.isPlaying
    ensures Consistent(HandlePlayAudio(app, speech))
  {
    if HasPage(app) {
      var call := GeminiService.GenerateSpeech(app.generatedHtml, speech);
      if call.result.Success? {
        AudioPlayer.PlayWhenIdleKeepsTidy(app.player, call.result.value);
      }
    }
  }

  lemma StopKeepsConsistent(app: AppState)
    requires Consistent(app)
    ensures Consistent(HandleStopAudio(app))
  {
    AudioPlayer.StopKeepsTidy(app.player);
  }

  lemma ResetKeepsConsistent(app: AppState)
    requires Consistent(app)
    ensures Consistent(HandleReset(app))
  {
    AudioPlayer.StopKeepsTidy(app.player);
  }

  lemma ChatbotKeepsConsistent(app: AppState, message: string, reply: GeminiService.ModelReply)
    requires Consistent(app)
    ensures Consistent(HandleChatbotSend(app, message, reply))
  {
  }

  /**
    A run of actions from a consistent page, stopping at the first that
    cannot happen. At most one source, the current one, can be audible;
    `isPlaying` holds exactly while the hook holds a current source, so
    nothing plays while it is false.
   */
  function Run(app: AppState, actions: seq<Action>): (r: AppState)
    requires Consistent(app)
    ensures Consistent(r)
    ensures AudioPlayer.Consistent(r.player)
    decreases |actions|
  {
    if |actions| == 0 || !CanHappen(app, actions[0]) then
      AudioPlayer.TidyIsConsistent(app.player);
      app
    else
      StepKeepsConsistent(app, actions[0]);
      Run(Step(app, actions[0]), actions[1..])
  }

  // ---------------------------------------------------------------------
  // Properties of single handlers

  /** With no page, or only the placeholder, nothing is read out. */
  lemma PlaceholderNotRead(app: AppState, speech: GeminiService.SpeechReply)
    requires Valid(app) && app.generatedHtml == InitialHtmlContent
    ensures HandlePlayAudio(app, speech) == app
  {
  }

  /** After a reset, playing audio does nothing until a page is generated. */
  lemma ResetThenPlayDoesNothing(app: AppState, speech: GeminiService.SpeechReply)
    requires Valid(app)
    ensures var r := HandleReset(app); HandlePlayAudio(r, speech) == r
  {
  }

  /** A prompt of only white space is refused before any request. */
  lemma BlankPromptRefused(app: AppState, reply: GeminiService.ModelReply)
    requires Valid(app) && forall i :: 0 <= i < |app.prompt| ==> SpeechText.IsJsSpace(app.prompt[i])
    ensures HandleGenerate(app, reply) == app.(error := Some(Text(EmptyPromptMessage)))
  {
    SpeechText.TrimSurrounded(app.prompt, [], []);
    assert app.prompt + [] + [] == app.prompt;
  }

  /** Two answered prompts in a row continue one conversation: the history is both prompts, in order. */
  lemma ConversationContinues(app: AppState, next: string, a: string, b: string)
    requires Valid(app) && app.sessions.html.None? && app.chatHistory == []
    requires SpeechText.Trim(app.prompt) != [] && SpeechText.Trim(next) != []
    ensures var one := HandleGenerate(app, GeminiService.Replied(a));
      var two := HandleGenerate(one.(prompt := next), GeminiService.Replied(b));
      && two.chatHistory == [app.prompt, next]
      && two.sessions.html.Some?
      && two.sessions.html.value.id == one.sessions.html.value.id
      && two.generatedHtml == b
  {
    var one := HandleGenerate(app, GeminiService.Replied(a));
    assert one.chatHistory == [app.prompt];
    var two := HandleGenerate(one.(prompt := next), GeminiService.Replied(b));
    assert two.chatHistory == [app.prompt] + [next];
  }

  /** A failed chatbot call keeps the page's own chat and the HTML session as they were. */
  lemma ChatbotFailureIsLocal(app: AppState, message: string)
    requires Valid(app)
    ensures var r := HandleChatbotSend(app, message, GeminiService.CallFailed);
      r.sessions.html == app.sessions.html && r.chatHistory == app.chatHistory
      && r.isChatStarted == app.isChatStarted && r.sessions.chatbot.None?
  {
  }
}
