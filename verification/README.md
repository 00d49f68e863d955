# AI HTML Generator & Compiler — a verified model of its logic

The application asks a hosted language model for an HTML page. It shows the
page in a preview and can have the page read aloud, using a text-to-speech
model and an in-browser player for raw 16-bit audio. A second chat session
answers web-development questions. This project models in Dafny the parts of
the application that hold sequential logic, and proves their properties:

- **Base64** — `decode` in `hooks/useAudioPlayer.ts`. It covers the full
  WHATWG forgiving-base64 decoder behind `window.atob`: whitespace removal,
  padding removal, the length and alphabet checks, and the bit-level
  regrouping. It also covers the copy of char codes into bytes. A canonical
  encoder (section 4 of RFC 4648) is its partner: `Decode(Encode(b)) == b`
  is proved for every byte sequence.
- **Pcm** — `decodeAudioData`. Bytes are read as signed 16-bit samples,
  scaled by 1/32768 and deinterleaved. This includes the exceptions the
  platform throws for an odd byte length and for an empty buffer. There is a
  functional definition and a loop implementation proved equal to it.
- **AudioPlayer** — the `play` / `stop` / "ended" / unmount controller of
  `useAudioPlayer`. Source nodes have identities, so that an "ended" event
  can be traced to the source that sent it. The "ended" handler is modelled
  both as written (`Ended`) and corrected (`EndedGuarded`, see Findings).
  The invariant of the controller used on its own, with any caller, is
  proved for the corrected handler (`Dispatch`, `Run`). A stronger
  invariant, `Tidy`, is proved for the handler as written when `play` is
  only called while nothing plays, which is how the page calls it.
- **SpeechText** — the regular-expression pipeline that turns the page into
  the text read aloud. Each global replacement is a left-to-right scanner:
  style blocks, then tags, then runs of white space, then trimming.
- **GeminiService** — the two lazily-created chat sessions, their reset on
  failure, and the error paths of the speech request. The model's answer is
  an input to each operation.
- **App** — the page component's state and its handlers, with the audio
  hook as written. It proves an invariant that ties the page's chat
  bookkeeping to the service's session and keeps at most one source
  audible. The proof relies on the editor panel offering "Read Aloud" only
  while nothing plays or is being synthesised.

## Model

| member | source | states |
|---|---|---|
| Base64.RemoveAsciiWhitespace | hooks/useAudioPlayer.ts:6 | every ASCII whitespace character of the payload is dropped, every other character survives, and a whitespace-free payload is unchanged (order and multiplicity are stated by `RemoveWhitespaceAppend`) |
| Base64.RemovePadding | hooks/useAudioPlayer.ts:6 | only when the length is a multiple of 4 are one or two trailing '=' dropped; the result is a prefix of its input |
| Base64.DecodeSextets | hooks/useAudioPlayer.ts:6 | n sextets give exactly 3n/4 bytes (a trailing group of 2 or 3 gives 1 or 2 bytes) |
| Base64.Atob | hooks/useAudioPlayer.ts:6 | `atob` yields a binary string: every char below 256, and never longer than the payload |
| Base64.CharCodes | hooks/useAudioPlayer.ts:7-11 | one byte per char, each byte equal to the char's code; turning the bytes back into chars gives the string back |
| Base64.Decode | hooks/useAudioPlayer.ts:5-13 | `decode` fails exactly when `atob` throws, with the same error; otherwise it returns as many bytes as the binary string has chars, byte i equal to the code of char i |
| Base64.DecodeSplit | hooks/useAudioPlayer.ts:6 | regrouping bytes into sextets and back is lossless |
| Base64.AtobEncode | hooks/useAudioPlayer.ts:6 | `atob` inverts canonical padded base64 |
| Base64.DecodeEncode | hooks/useAudioPlayer.ts:5-13 | `decode` returns exactly the bytes that were encoded, for every byte sequence |
| Base64.WhitespaceIgnored | hooks/useAudioPlayer.ts:6 | inserting any ASCII whitespace character (TAB, LF, FF, CR or space) anywhere in a payload changes neither the whitespace removal nor what `atob` returns or throws |
| Base64.RemoveWhitespaceAppend | hooks/useAudioPlayer.ts:6 | whitespace removal distributes over concatenation; with whitespace-free text left alone, this keeps every other character in order and with its multiplicity |
| Base64.ForeignCharacterRejected | hooks/useAudioPlayer.ts:6 | a character that is not whitespace, not '=' and not in the alphabet makes `decode` throw InvalidCharacterError |
| Base64.RejectsForeignCharacter | hooks/useAudioPlayer.ts:6 | the payload "not-base64!!" is rejected with InvalidCharacterError |
| Pcm.Int16Le | hooks/useAudioPlayer.ts:22 | two bytes read as a 16-bit sample lie in [-32768, 32768) and agree with the bytes modulo 2^16 |
| Pcm.Int16Bytes | hooks/useAudioPlayer.ts:22 | every 16-bit value has a byte pair that reads back as that value |
| Pcm.Int16View | hooks/useAudioPlayer.ts:22 | the Int16Array view throws RangeError exactly on an odd byte length; otherwise sample k is bytes 2k and 2k+1 |
| Pcm.DecodePcm | hooks/useAudioPlayer.ts:16-33 | for a sample rate and channel count the platform supports (the player passes 24000 Hz and one channel), fails exactly on an odd length (RangeError) or an empty payload (NotSupportedError); otherwise it has the given rate and channel count, each channel has bytes/2/channels frames, and channel c frame i is int16 sample i*channels+c divided by 32768 |
| Pcm.DecodeAudioData | hooks/useAudioPlayer.ts:16-33 | the two nested loops compute exactly `DecodePcm` |
| Pcm.SamplesInRange | hooks/useAudioPlayer.ts:29 | every output sample lies in [-1, 1) |
| Pcm.SilenceIsZero | hooks/useAudioPlayer.ts:29 | all-zero bytes give all-zero samples |
| Pcm.ExtremeSamples | hooks/useAudioPlayer.ts:29 | FF 7F gives 32767/32768, 00 80 gives exactly -1, and 00 00 gives 0 |
| Pcm.MonoFrames | hooks/useAudioPlayer.ts:22-24 | with the one channel the player asks for, a non-empty even payload of 2k bytes gives one channel of exactly k frames at the requested rate |
| Pcm.MonoRoundTrip | hooks/useAudioPlayer.ts:22-31 | no information is lost: re-encoding a mono buffer's samples gives back the original bytes |
| Pcm.Int16Injective | hooks/useAudioPlayer.ts:22 | different byte pairs never read as the same sample |
| Pcm.ExamplePayload | hooks/useAudioPlayer.ts:5-13 | "AAD/fwCA" decodes to the bytes 00 00 FF 7F 00 80 |
| Pcm.ExampleSamples | hooks/useAudioPlayer.ts:16-33 | those bytes, at 24 kHz mono, give the one channel [0, 32767/32768, -1] |
| AudioPlayer.StopSource | hooks/useAudioPlayer.ts:42 | `source.stop()` stops a playing source, leaves a stopped or ended one alone, and touches no other source |
| AudioPlayer.Stop | hooks/useAudioPlayer.ts:70-74 | the current source, if any, is no longer playing; the reference, `isPlaying`, the context and every other source stay as they were; with no current source nothing changes |
| AudioPlayer.DecodePayload | hooks/useAudioPlayer.ts:53-54 | decoding succeeds exactly for a payload that decodes to a non-empty, even number of bytes, giving the 24 kHz mono buffer of those bytes; an `atob` error is passed on |
| AudioPlayer.OpenContext | hooks/useAudioPlayer.ts:45-48 | an open context is reused; a missing or closed one is replaced by a fresh open 24 kHz context |
| AudioPlayer.Start | hooks/useAudioPlayer.ts:56-67 | a new playing source is added on the context, becomes the current one, and `isPlaying` is true; earlier sources are untouched |
| AudioPlayer.Play | hooks/useAudioPlayer.ts:40-68 | the previous source is stopped first. A context is created (fresh, 24 kHz) only when none is open. On success the new source plays, is current and `isPlaying` is true. On a decoding error the call rejects, with the reference and `isPlaying` as they were |
| AudioPlayer.Ended | hooks/useAudioPlayer.ts:60-63 | as written: the source is marked ended, and the reference and `isPlaying` are cleared whichever source the event came from |
| AudioPlayer.Teardown | hooks/useAudioPlayer.ts:76-85 | unmounting stops the current source, if any, and closes the context, if any |
| AudioPlayer.StopIdempotent | hooks/useAudioPlayer.ts:70-74 | stopping twice is stopping once |
| AudioPlayer.StopWhenIdle | hooks/useAudioPlayer.ts:70-74 | with no current source, `stop` changes nothing (a convenience restatement of one clause of `Stop`'s contract) |
| AudioPlayer.PlayTwiceStopsFirst | hooks/useAudioPlayer.ts:40-68 | after two successful plays, the first source is stopped, the second plays and is current, and `isPlaying` is true |
| AudioPlayer.PlayAfterTeardownMakesNewContext | hooks/useAudioPlayer.ts:45-48 | a context closed by the unmount cleanup is never reused: the next play makes a new one |
| AudioPlayer.BadPayloadRejected | hooks/useAudioPlayer.ts:53 | playing "not-base64!!" rejects with InvalidCharacterError and leaves `isPlaying` unchanged |
| AudioPlayer.ExamplePlayable | hooks/useAudioPlayer.ts:53-54 | the payload "AAD/fwCA" plays |
| AudioPlayer.StaleEndedOrphansNewerSource | hooks/useAudioPlayer.ts:60-63 | as written, the late "ended" event of a source stopped by a newer `play` clears the newer source's reference while it still plays. `stop` can then no longer reach it, and another `play` makes two sources play at once |
| AudioPlayer.EndedGuarded | hooks/useAudioPlayer.ts:60-63 | corrected: the source is marked ended; the reference and `isPlaying` are cleared only if it is the current source |
| AudioPlayer.Dispatch | hooks/useAudioPlayer.ts:40-85 | the controller with the corrected "ended" handler: sources are never forgotten; only a successful `play` adds one, and it becomes current with `isPlaying` true; `stop` and unmounting leave the reference and `isPlaying` alone; only `play` and unmounting change the context |
| AudioPlayer.DispatchKeepsConsistent | hooks/useAudioPlayer.ts:40-85 | with the corrected handler, every play, stop, "ended" and unmount keeps the invariant: only the current source can be playing, and `isPlaying` holds exactly while there is a current source. The handler as written breaks it (`StaleEndedOrphansNewerSource`) |
| AudioPlayer.Run | hooks/useAudioPlayer.ts:40-85 | with the corrected handler, every sequence of events from a consistent controller leaves it consistent |
| AudioPlayer.TidyIsConsistent | hooks/useAudioPlayer.ts:40-85 | when every source but the current one has ended, only the current source can be playing |
| AudioPlayer.EndedAgreesWhenTidy | hooks/useAudioPlayer.ts:60-63 | when every source but the current one has ended, an "ended" event can only come from the current source, and the handler as written does exactly what the corrected one does |
| AudioPlayer.PlayWhenIdleKeepsTidy | hooks/useAudioPlayer.ts:40-68 | a `play` made while `isPlaying` is false keeps every non-current source ended, whether or not decoding succeeds |
| AudioPlayer.StopKeepsTidy | hooks/useAudioPlayer.ts:70-74 | `stop` keeps every non-current source ended |
| AudioPlayer.EndedKeepsTidy | hooks/useAudioPlayer.ts:60-63 | the handler as written keeps every non-current source ended, and `isPlaying` true exactly while there is a current source |
| AudioPlayer.TeardownKeepsTidy | hooks/useAudioPlayer.ts:76-85 | the unmount cleanup keeps every non-current source ended |
| SpeechText.FindStyleClose | services/geminiService.ts:63 | finds the first closing style tag, in any letter case, at or after a position |
| SpeechText.StyleMatchLen | services/geminiService.ts:63 | a matched style block starts with "<style" in any letter case, holds the '>' that ends its opening tag, and is at least 15 characters long |
| SpeechText.StyleMatchLenFinds | services/geminiService.ts:63 | the block ends at the first closing tag after the first '>': `[^>]*` stops at the first '>', and the lazy `*?` takes the shortest match |
| SpeechText.TagLen | services/geminiService.ts:64 | a tag runs from '<' to the first '>' after at least one other character |
| SpeechText.DropSpaces | services/geminiService.ts:65 | leading white space is removed and nothing else |
| SpeechText.DropTrailingSpaces | services/geminiService.ts:65 | trailing white space is removed and nothing else |
| SpeechText.StripStyle | services/geminiService.ts:63 | the style replacement as a left-to-right scan; its properties are stated by `StyleBlockReplaced`, `NoStyleBlockWithoutTag`, `StripStyleFixesTagFree` and `ExampleStyle` |
| SpeechText.StyleBlockReplaced | services/geminiService.ts:63 | a style block (tags in any letter case, attributes allowed, no earlier closing tag inside the style sheet) is replaced as a whole by "The page contains custom styling. " |
| SpeechText.NoStyleBlockWithoutTag | services/geminiService.ts:63 | where no tag starts, no style block starts |
| SpeechText.StripStyleFixesTagFree | services/geminiService.ts:63 | text without a tag passes the style replacement unchanged |
| SpeechText.ExampleStyle | services/geminiService.ts:63 | "<STYLE>p{}</style><p>Hi</p>" becomes the notice followed by "<p>Hi</p>" |
| SpeechText.StripTags | services/geminiService.ts:64 | the tag replacement as a left-to-right scan; its properties are stated by `TagReplaced`, `StripTagsChars`, `StripTagsIsTagFree`, `StripTagsFixpoints` and `StripTagsIdempotent` |
| SpeechText.TagReplaced | services/geminiService.ts:64 | a tag is replaced by one space |
| SpeechText.StripAppend | services/geminiService.ts:63-64 | text without '<' passes the style and tag replacements unchanged |
| SpeechText.StripTagsChars | services/geminiService.ts:64 | tag stripping adds no character other than a space |
| SpeechText.StripTagsIsTagFree | services/geminiService.ts:64 | after tag stripping no tag is left |
| SpeechText.StripTagsFixesTagFree | services/geminiService.ts:64 | tag-free text is left alone |
| SpeechText.StripTagsFixpoints | services/geminiService.ts:64 | tag stripping leaves a text unchanged exactly when it holds no tag |
| SpeechText.StripTagsIdempotent | services/geminiService.ts:64 | stripping tags twice is stripping once |
| SpeechText.Collapse | services/geminiService.ts:65 | each maximal run of white space becomes one space; its properties are stated by `CollapseKeepsVisible`, `CollapseIsCollapsed`, `CollapseFixesCollapsed`, `CollapseIdempotent` and `CollapseAppend` |
| SpeechText.CollapseKeepsVisible | services/geminiService.ts:65 | collapsing keeps every visible character, in order |
| SpeechText.CollapseIsCollapsed | services/geminiService.ts:65 | after collapsing, white space is a single plain space and never two in a row |
| SpeechText.CollapseFixesCollapsed | services/geminiService.ts:65 | collapsed text is left alone |
| SpeechText.CollapseIdempotent | services/geminiService.ts:65 | collapsing twice is collapsing once |
| SpeechText.CollapseAppend | services/geminiService.ts:65 | a collapsed stretch ending in a visible character passes unchanged |
| SpeechText.CollapseKeepsTagFree | services/geminiService.ts:64-65 | collapsing white space creates no tag |
| SpeechText.Trim | services/geminiService.ts:65 | `trim()`, leading then trailing white space dropped; its properties are stated by `TrimShape`, `TrimKeepsVisible`, `TrimSurrounded` and `TrimFixesTrimmed` |
| SpeechText.TrimShape | services/geminiService.ts:65 | the trimmed text has no white space at its ends and is a contiguous piece of its input |
| SpeechText.TrimKeepsVisible | services/geminiService.ts:65 | trimming removes only white space |
| SpeechText.TrimSurrounded | services/geminiService.ts:65 | trimming removes exactly the white space around a text, and nothing inside it |
| SpeechText.TrimFixesTrimmed | services/geminiService.ts:65 | trimmed text is left alone |
| SpeechText.TrimKeepsTagFree | services/geminiService.ts:65 | trimming creates no tag |
| SpeechText.Normalize | services/geminiService.ts:63-65 | the whole chain of replacements in order; its properties are stated by `NormalizeShape`, `NormalizeTagFree`, `NormalizeIdempotent` and `NormalizeWithoutMarkup` |
| SpeechText.NormalizeShape | services/geminiService.ts:63-65 | the text read aloud has no white space at its ends, never two white-space characters in a row, and no white space but ' ' |
| SpeechText.NormalizeTagFree | services/geminiService.ts:63-65 | the text read aloud holds no tag, so stripping tags again changes nothing |
| SpeechText.NormalizeIdempotent | services/geminiService.ts:63-65 | normalising the normalised text changes nothing |
| SpeechText.NormalizeWithoutMarkup | services/geminiService.ts:63-65 | input without '<' is only collapsed and trimmed, and keeps all its visible characters |
| GeminiService.GenerateOrUpdateHtml | services/geminiService.ts:14-32 | the prompt goes to the held HTML session, or to a new one only if there is none. A reply is appended to that session and returned. A failure drops the session and rejects with "Failed to communicate with the model. The session has been reset.". The chatbot session is untouched either way |
| GeminiService.ResetHtmlChatSession | services/geminiService.ts:34-36 | the HTML session is gone; the chatbot session is untouched |
| GeminiService.AskChatbot | services/geminiService.ts:40-57 | same protocol on the chatbot session. A failure drops only the chatbot session and rejects with "Failed to get a response from the chatbot. Please try again." |
| GeminiService.GenerateSpeech | services/geminiService.ts:60-93 | a request is made exactly when the normalised text is non-empty, and it is "Read the following web page content: " followed by that text. The call succeeds exactly when a request was made and non-empty audio came back, which is returned. Every failure, including an empty text, rejects with "Failed to generate speech. The model might be unavailable." |
| GeminiService.HtmlSessionReused | services/geminiService.ts:16-26 | two answered prompts go to the same session, in order, and no further session is made |
| GeminiService.HtmlFailureStartsOver | services/geminiService.ts:27-31 | after a failure the next prompt opens a new, empty session, distinct from every earlier one |
| GeminiService.ResetIdempotent | services/geminiService.ts:34-36 | resetting twice is resetting once |
| GeminiService.SessionsIndependent | services/geminiService.ts:29 | HTML generation never touches the chatbot session, and the chatbot never touches the HTML session (a convenience restatement of clauses of the three operations' contracts) |
| GeminiService.ChatbotFailureStartsOver | services/geminiService.ts:52-56 | after a chatbot failure the next question opens a new chatbot session; the HTML session survives |
| GeminiService.SpeechRequestShape | services/geminiService.ts:63-73 | the request is the fixed prefix followed by non-empty, tag-free, trimmed and collapsed text |
| GeminiService.BlankTextNotSent | services/geminiService.ts:63-69 | a page of only white space makes no request and rejects with the speech failure message |
| GeminiService.PlainTextSent | services/geminiService.ts:63-71 | text without markup that has a visible character is always sent |
| App.PromptsAppend | App.tsx:61 | the history grows as `[...prev, prompt]`: the prompts of a session with one more turn are its earlier prompts followed by that turn's prompt |
| App.HandleGenerate | App.tsx:48-73 | a trim-empty prompt only sets "Please enter a description or a change request.". On a reply: the page becomes the reply, the chat is started, the history grows by exactly the prompt, the prompt and error are cleared. On a failure: the error is the service's message, the chat is not started, the history is empty, the HTML session is gone, and the page and prompt stay. `isGenerating` is false afterwards |
| App.HandleReset | App.tsx:75-83 | audio is stopped; prompt, error and history are cleared; the placeholder is back; the chat is not started and the HTML session is gone; the chatbot is untouched |
| App.HandlePlayAudio | App.tsx:85-97 | with no page or only the placeholder nothing happens. Otherwise the speech failure message or the player's exception becomes the error, or the audio plays with no error. `isSynthesizing` is false afterwards, and the page, chat and sessions are untouched |
| App.HandleStopAudio | App.tsx:99-101 | the current source stops, `isPlaying` and everything else stay as they were |
| App.HandleChatbotSend | App.tsx:103-116 | the user's message is appended first. On a reply exactly one model message follows it. On a failure only the user's message is added and the chatbot error is set. The page, its chat and the HTML session are untouched |
| App.Step | App.tsx:48-116 | one action on the page: the chatbot's messages only grow, no audio source is forgotten, the page and the HTML session change only by generating or resetting, and the chatbot session only by sending to the chatbot |
| App.InitialConsistent | App.tsx:31-46 | the first render satisfies the page invariant |
| App.StepKeepsConsistent | App.tsx:48-116 | with the audio hook as written, every handler and "ended" event keeps the invariant: the chat is started exactly while the HTML session exists, the history is the prompts of that session, the greeting stays first, and every audio source but the current one has ended. This needs "Read Aloud" to be offered only while nothing plays or is being synthesised, as components/EditorPanel.tsx:172-188 does |
| App.Run | App.tsx:48-116 | with the hook as written, every sequence of actions the page allows keeps the page consistent: at most one source, the current one, can be audible; `isPlaying` holds exactly while the hook holds a current source, so nothing plays while it is false (after `stop` it stays true until the "ended" event) |
| App.PlaceholderNotRead | App.tsx:86 | the placeholder is never sent for speech |
| App.ResetThenPlayDoesNothing | App.tsx:78 | after a reset, playing audio does nothing |
| App.BlankPromptRefused | App.tsx:49-52 | a prompt of only white space changes nothing but the error |
| App.ConversationContinues | App.tsx:56-62 | two different answered prompts continue one conversation: the history is the first prompt then the second, and the same session served both |
| App.ChatbotFailureIsLocal | App.tsx:103-116 | a failed chatbot call leaves the page's chat and the HTML session as they were, and drops the chatbot session (mostly a convenience restatement of `HandleChatbotSend`'s and `AskChatbot`'s contracts) |

## Edge behaviour of the code

- The bytes are read little-endian. `new Int16Array(buffer)` uses the
  platform's byte order, and every platform the application targets is
  little-endian.
- `decodeAudioData` divides the sample count by the channel count without
  flooring. `Pcm.DecodePcm` therefore requires the sample count to be a
  multiple of the channel count. Its only caller passes one channel, for
  which this always holds.
- An odd byte length throws a RangeError in the `Int16Array` constructor
  at hooks/useAudioPlayer.ts:22; nothing is truncated.
- An empty payload throws a NotSupportedError in `createBuffer` with zero
  frames at hooks/useAudioPlayer.ts:24; no empty buffer is made.
- A `play` that fails to decode (hooks/useAudioPlayer.ts:53-54) never
  reaches `setIsPlaying(true)` at line 67. So `isPlaying` is left as it was,
  and only the stopped source's "ended" event (lines 60-63) clears it.
- `stop` (hooks/useAudioPlayer.ts:70-74) does not clear `isPlaying`. The
  flag stays true after a stop until the source's "ended" event arrives.
- JavaScript strings are UTF-16 code units. The model's strings are Unicode
  scalar values, so a character outside the Basic Multilingual Plane counts
  as one character, not two. `[^>]` and `[\s\S]` match each half of such a
  character, so the scan covers it either way. No pattern can tell the two
  representations apart: a surrogate half is never '<', '>' or white space.

## Left out

- Pcm.DecodePcm: does not model the NotSupportedError that `createBuffer`
  (hooks/useAudioPlayer.ts:24) throws for a sample rate or channel count
  the platform does not support. Web Audio guarantees at least 8000 to
  96000 Hz and 32 channels, but the exact limits vary by platform. The
  function is private to the hook, and its one call (line 54) passes
  24000 Hz and one channel, which every platform supports.
- The network calls to the hosted models, the model names, the system
  instructions and the `API_KEY` check at module load. These are
  configuration and I/O; each call's outcome is an input (`ModelReply`,
  `SpeechReply`).
- A model reply whose `text` is undefined. `response.text` is taken to be a
  string.
- `AudioContext.resume()` failing, and the platform refusing to create a
  context. These are platform faults outside the code's control; a
  successful resume is assumed.
- `connect`, the audio graph and the timing of playback. A source plays
  from `start` until its "ended" event, which arrives as an explicit event.
- The interleaving of `await`s. Each handler runs to completion in one step.
  So the intermediate `isGenerating` / `isSynthesizing` / `isChatbotLoading`
  = true states, and a second handler starting during one, are not modelled.
- Sources playing on a context that the unmount cleanup has closed are still
  marked playing; audibility through a closed context is not modelled.
- `console.error` logging, and the `instanceof Error` fallback messages in
  App.tsx. Every error the services and the player throw is an Error.
- The chatbot panel's open/closed flag and everything else in
  components/EditorPanel.tsx and components/Chatbot.tsx (markup, clipboard,
  `window.open`, scrolling, the other buttons' `disabled` conditions).
  These are UI. The one exception is which audio button the editor panel
  shows (components/EditorPanel.tsx:65, 172-188), which `App.CanHappen`
  models. The `stop` button is allowed at any time, which covers more
  cases than the page offers.

## Findings

| source | as written | input that shows it | evidently intended | confidence | as-written member | corrected member |
|---|---|---|---|---|---|---|
| hooks/useAudioPlayer.ts:60-63 | the `onended` closure of every source sets `isPlaying` to false and clears `sourceRef`, whichever source the reference holds | `play(a)`, then `play(b)`, then the "ended" event of the first source (stopped at line 42 by the second `play`) arriving after line 66 | only the source the reference still holds should clear it; otherwise the newer source plays on with `isPlaying` false, `stop` cannot reach it, and the next `play` overlaps two sources | medium — depends on when the platform delivers the "ended" event. This page never triggers it: components/EditorPanel.tsx:172-188 replaces "Read Aloud" with "Stop" while `isPlaying` is true, so the page never plays while a source is current (`App.StepKeepsConsistent`, `AudioPlayer.EndedAgreesWhenTidy`). Any other caller of the hook that plays while a source is current, the case lines 41-43 exist for, does trigger it; not executed | AudioPlayer.StaleEndedOrphansNewerSource | AudioPlayer.EndedGuarded |
