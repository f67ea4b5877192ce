# KRRISH-AI chat front end: a Dafny model

KRRISH-AI is a single-page chat client. A user types a prompt in one of five
agent modes (GENERAL, CODING, RESEARCH, SYSTEM, IOT). The conversation
orchestrator (`App.tsx`) then does four things:

- it appends the prompt optimistically;
- it sends the last ten turns of the same mode to a remote completion
  client (`services/geminiService.ts`);
- it appends the reply;
- it turns the prompt into a task when the reply says a task was created.

Each message is rendered by `renderContent` (`components/ChatMessage.tsx`).
It splits the text at fenced code regions and at `**bold**` spans.

This project models those three pieces as pure functions over immutable
datatypes and proves what they promise.

| module | file | models |
|---|---|---|
| `Wrappers` | wrappers.dfy | `Option` for absent fields and failed searches |
| `Strings` | strings.dfy | the JavaScript string operations the core uses: `trim`, `toLowerCase` (ASCII capitals and the Kelvin sign only), `indexOf`, `includes`, `slice(a, -b)`, `substring(0, n)` |
| `Types` | types.dfy | `AgentMode`, `ChatMessage` and `Task` of `types.ts` |
| `Gemini` | gemini.dfy | `chatWithGemini` in two halves. The first builds the request: model, search tool, system instruction and contents. The second normalises the response text and the grounding links, or supplies the error fallback. The SDK call is a function parameter `call: Request -> CallOutcome`. |
| `Render` | render.dfy | `renderContent` in three stages. The fence and bold patterns are a hand-written lazy matcher. `String.prototype.split` with a capturing separator is modelled as the split loop of ECMA-262. The info-string match `/```(\w*)\n([\s\S]*?)```/` is the third stage. |
| `RenderExamples` | render_examples.dfy | worked inputs of the renderer |
| `App` | app.dfy | the session state and `handleSendMessage`, `clearChat`, `toggleTask` and the initial state |

`handleSendMessage` suspends once, at the `await`. It is modelled as two
functions:

- `Begin` runs up to the call. It covers the guard, the user turn, clearing
  the composer, the typing flag and the history.
- `Complete` runs when the call settles, on the state as it is at that
  moment. React's functional updaters read the latest state, so a
  `clearChat` or a mode switch during the await is visible to
  `Complete`.

`Submit` is the two back to back. The identifiers that `Date.now()`
produces come in as parameters.

Two consequences of the code are easy to miss, and the model keeps both:

- A grounding uri that is literally "#" is dropped. Missing or empty uris
  become "#", and every link whose uri is "#" is then filtered out
  (services/geminiService.ts:66-67).
- A promoted task's category is the mode captured when the prompt was
  sent, not the mode current when the reply arrives. App.tsx:82 reads the
  `mode` of the render that sent the prompt.

## Model

| member | source | states |
|---|---|---|
| Types.ModeName | types.ts:2-8 | every mode's string value is non-empty |
| Strings.Trim | App.tsx:38 | `trim` returns an infix of the input, and only whitespace lies before and after it; the result neither starts nor ends with whitespace |
| Strings.TrimEmptyIffBlank | App.tsx:38 | `!input.trim()` holds exactly when every character of the input is JavaScript whitespace |
| Strings.Lower | App.tsx:76 | lower-casing keeps the length, maps each ASCII capital to its small letter and the Kelvin sign to 'k', and leaves every other character unchanged |
| Strings.LowerIdempotent | App.tsx:76 | lower-casing an already lower-cased text changes nothing |
| Strings.IndexOf | App.tsx:76 | the result is the first occurrence at or after the start index, with none before it; None means there is no occurrence at or after it |
| Strings.Includes | App.tsx:76 | `includes` holds iff the needle occurs somewhere |
| Strings.SliceInner | components/ChatMessage.tsx:27 | `slice(a, -b)` cuts `a` characters from the front and `b` from the back, giving "" when nothing is left between them |
| Strings.Prefix | App.tsx:77 | `substring(0, n)` is a prefix of length min(n, length) |
| Gemini.ModelFor | services/geminiService.ts:34-36 | the pro model is chosen iff the mode is CODING or IOT, otherwise the flash model |
| Gemini.UsesSearch | services/geminiService.ts:38 | search grounding is on iff the mode is RESEARCH or SYSTEM |
| Gemini.SystemInstruction | services/geminiService.ts:41 | the instruction is the fixed preamble followed by exactly the mode's name |
| Gemini.BuildRequest | services/geminiService.ts:34-57 | the request carries the pro model for CODING and IOT and the flash model for every other mode, the search tool chosen above, and the preamble-plus-mode instruction; its contents are the history unchanged, then exactly one user turn with the prompt |
| Gemini.OrDefault | services/geminiService.ts:65-66 | the JavaScript or-default on an optional string: a present, non-empty value is kept; an absent or empty one becomes the default |
| Gemini.ReplyText | services/geminiService.ts:60 | the reply text is never empty: a missing or empty response text becomes the apology text |
| Gemini.GroundingChunks | services/geminiService.ts:61 | the optional chain yields chunks iff there is a first candidate with grounding metadata that has a chunk list, and then it yields that list |
| Gemini.ChunkLink | services/geminiService.ts:64-66 | a chunk's link has a non-empty title and uri; a chunk without a web record gives ("Source", "#") |
| Gemini.Links | services/geminiService.ts:64-67 | there are no more links than chunks, and no link has uri "#" or an empty uri |
| Gemini.LinksOfOne | services/geminiService.ts:64-67 | a single chunk contributes its link exactly when it has a web uri that is neither absent, empty nor "#"; the title defaults to "Source" |
| Gemini.LinksAppend | services/geminiService.ts:64-67 | normalisation distributes over concatenation, so links keep the chunks' order; with LinksOfOne this determines every link list |
| Gemini.Normalise | services/geminiService.ts:59-73 | a failed call gives the connection-error text and no links; otherwise the text is the response text or the apology, present chunks give their normalised links, and absent chunks give no links |
| Gemini.ChatWithGemini | services/geminiService.ts:25-74 | a failure of the call is never propagated: it becomes the fixed error reply; a response is normalised as above; the text is never empty |
| Render.BoldClose | components/ChatMessage.tsx:52 | the lazy `.*?\*\*` tail stops at the first `**` after the opener, with no line terminator before it; None means every later `**` has a line terminator before it |
| Render.MatchEnd | components/ChatMessage.tsx:22 | a match of the fence or bold pattern at a position is a shortest span between markers; None means no span of any length starts there |
| Render.SpanUnique | components/ChatMessage.tsx:22 | at most one match of a lazy pattern starts at any position |
| Render.Split | components/ChatMessage.tsx:22 | `split` with a capturing separator, used for fences here and for bold spans at line 52, gives an odd number of parts, and every odd part is a match |
| Render.SplitFrom | components/ChatMessage.tsx:22 | the split loop gives an odd number of parts, and every odd part is a match |
| Render.SplitNoMatch | components/ChatMessage.tsx:22 | a text in which the pattern matches at no position is split into itself alone |
| Render.NoBacktickNoFence | components/ChatMessage.tsx:22 | a text without a backtick has no fence region |
| Render.SplitConcat | components/ChatMessage.tsx:22 | concatenating the parts of a split gives back the input, because the captured separators are kept |
| Render.SplitIsScan | components/ChatMessage.tsx:22 | the split is a left-to-right scan of the input: plain parts contain no match start, and each separator is the match that starts where the preceding plain part ends |
| Render.ScanUnique | components/ChatMessage.tsx:22 | two scans of the same text from the same position are equal |
| Render.SplitIffScan | components/ChatMessage.tsx:22 | a list of parts is the split of a text iff it is a left-to-right scan of it |
| Render.OnlyLastPlainPartOpensFence | components/ChatMessage.tsx:22-24 | in the fence split, no plain part other than the last starts with a fence |
| Render.WordRunEnd | components/ChatMessage.tsx:25 | the greedy `\w*` takes only word characters and stops at the first character that is not one, or at the end |
| Render.InfoMatchAt | components/ChatMessage.tsx:25 | the info-string pattern is tried at one position: when it succeeds its captures match there, and when it fails no captures match there |
| Render.InfoMatchUnique | components/ChatMessage.tsx:25 | the captures of a match at a position are unique: the language is the maximal word run and the body ends at the first following fence |
| Render.FindInfoMatch | components/ChatMessage.tsx:25 | `match` finds the leftmost position where the pattern matches; None means it matches nowhere |
| Render.CodeBlock | components/ChatMessage.tsx:25-27 | the result is always code with a non-empty language. The language is the leftmost match's word run, or "code" when there is no match or the run is empty. The body is the leftmost match's captured body, or the part minus three characters at each end when there is no match or the body is empty. |
| Render.CodeBodyVerbatim | components/ChatMessage.tsx:25-27 | a code body is text that occurs verbatim in its part |
| Render.ClassifyWrapped | components/ChatMessage.tsx:53-54 | any text wrapped in `**` markers is classified as a bold run of exactly that text |
| Render.Classify | components/ChatMessage.tsx:53-56 | a sub-part is bold iff it starts and ends with `**`; bold text is the sub-part without its markers; a plain sub-part is kept verbatim |
| Render.BoldSpanInner | components/ChatMessage.tsx:52-54 | the text of a matched bold span contains neither a line terminator nor `**` |
| Render.FormatInline | components/ChatMessage.tsx:52-57 | there is one run per part of the bold split, classified as above: a sub-part that starts and ends with `**` is bold with the text `slice(2, -2)` gives, any other is plain and verbatim; every separator becomes bold, with the `**` markers around its text |
| Render.FormatInlineRoundTrip | components/ChatMessage.tsx:52-57 | with the markers put back, the runs spell the part again, unless a sub-part shorter than four characters is both started and ended by `**` |
| Render.RenderPart | components/ChatMessage.tsx:24-59 | a part becomes code iff it starts with a fence |
| Render.RenderContent | components/ChatMessage.tsx:21-61 | there is one segment per part of the fence split; every closed fence region becomes code; code is decided before any bold processing; text segments are the bold formatting of their part |
| Render.RenderSingleFence | components/ChatMessage.tsx:21-27 | content that is a single fence region with nothing around it renders as that code block between two empty text segments |
| Render.OnlyClosedOrTrailingFenceIsCode | components/ChatMessage.tsx:22-27 | code comes only from closed fence regions and from a trailing unclosed fence; every other part is text |
| RenderExamples.BoldSample | components/ChatMessage.tsx:52-56 | "a \*\*b\*\* c" renders as plain "a ", bold "b", plain " c" |
| RenderExamples.PythonSampleRenders | components/ChatMessage.tsx:22-27 | a python fence renders as code with language "python" and body "print(1)\n", between two empty text parts |
| RenderExamples.CppSampleFallsBack | components/ChatMessage.tsx:25-27 | "```c++\nx```" does not match the info pattern (`+` is not a word character), so it renders with language "code" and body "c++\nx" |
| RenderExamples.UnclosedFenceIsCode | components/ChatMessage.tsx:22-27 | an unclosed fence still renders as a code block, with language "code" and an empty body |
| RenderExamples.LoneMarkerIsEmptyBold | components/ChatMessage.tsx:53-54 | a lone `**` becomes an empty bold run |
| App.InitialState | App.tsx:18-26 | a fresh session is in GENERAL mode with an empty log, an empty composer, no request in flight, and three seeded tasks with distinct ids and statuses pending, completed, pending |
| App.ForMode | App.tsx:54 | the filtered log holds exactly the turns of the given mode |
| App.ForModeAppend | App.tsx:54 | filtering distributes over concatenation, so it keeps the log's order |
| App.LastN | App.tsx:55 | `slice(-n)` is the suffix of length min(n, length) |
| App.ToContent | App.tsx:56-59 | a turn's role is "model" iff the turn is the assistant's, otherwise "user"; its one part is the turn's content |
| App.History | App.tsx:53-59 | the history has at most ten entries: the last min(10, k) turns of the current mode, oldest first, each converted as above, where k is the number of such turns |
| App.HistoryIgnoresOtherModes | App.tsx:53-55 | appending a turn of another mode never changes a mode's history |
| App.MentionsTask | App.tsx:76 | the heuristic fires iff the lower-cased reply contains "added to your tasks" or "i've created a task" |
| App.TaskTitle | App.tsx:77 | a prompt of up to 30 characters is the title; a longer one is cut to its first 30 characters plus "...", so a title is at most 33 characters |
| App.Rejected | App.tsx:38 | a submit is refused iff the composer holds only JavaScript whitespace or a request is in flight |
| App.Begin | App.tsx:36-59 | a blank composer or a pending request leaves the state unchanged and sends nothing. Otherwise: the untrimmed input is appended as a user turn of the current mode; the composer is cleared; the typing flag is raised; the history comes from the log before the new turn; tasks and mode are unchanged. |
| App.Complete | App.tsx:61-90 | the typing flag is lowered on both paths. On a reply, the assistant turn is appended with the submission's mode, text and links, and the task is prepended exactly when the heuristic fires; otherwise the tasks are unchanged. On a throw, the log and the tasks are unchanged. |
| App.Submit | App.tsx:36-91 | a guarded submit is a no-op. Otherwise: on a reply the log becomes old ++ [user turn, assistant turn], and a task titled from the prompt, in the current mode, is prepended iff the reply mentions one; on a throw the log grows by only the user turn and the tasks are unchanged; the composer ends empty and the typing flag ends false. |
| App.ClearChat | App.tsx:93-97 | with confirmation the log is emptied and mode, tasks, composer and typing flag are kept; without confirmation nothing changes |
| App.Flip | App.tsx:101 | a toggled status differs from the old one |
| App.Toggled | App.tsx:100-102 | the length, ids, titles and categories are kept; exactly the tasks with the given id change status; every other task is unchanged |
| App.ToggleTask | App.tsx:99-103 | only the task list changes, keeping its length, ids, titles and categories; every task with the given id changes status and every other task is unchanged |
| App.ToggleTwice | App.tsx:99-103 | toggling the same id twice restores the task list |
| App.ToggleUnknown | App.tsx:99-103 | toggling an id no task carries leaves the list unchanged |
| App.SetMode | App.tsx:18 | switching mode changes nothing else |
| App.SetInput | App.tsx:20 | typing into the composer changes nothing else |
| App.OneRequestInFlight | App.tsx:38-50 | once a submission has begun, another submit is a no-op until it completes, whatever is typed meanwhile |
| App.ClearDuringRequest | App.tsx:73 | the reply is appended to the log as it is when the call settles: a log cleared during the await ends up holding only the reply |
| App.ModeSwitchDuringRequest | App.tsx:62-83 | after a mode switch during the await, the reply and any task still carry the submission's mode, not the new one |
| App.FallbacksMentionNoTask | App.tsx:76 | neither the connection-error text nor the apology text triggers the task heuristic |
| App.SubmitThroughService | App.tsx:61-90 | with the real service, the log grows by exactly two turns and the reply is never empty; a failed call shows the connection-error text with no links and creates no task |

## Left out

- Rendering: the JSX and Tailwind markup, the header, the suggestion buttons, the typing indicator and `components/Sidebar.tsx` are view code. The sidebar only forwards to `setMode` and `toggleTask`, which `App.SetMode` and `App.ToggleTask` model.
- The scroll effect, clipboard copy, the `setTimeout` "copied" feedback and `toLocaleTimeString` are browser APIs and timers.
- Message timestamps are not part of the model. `Date.now()` ids are parameters, so id uniqueness is not modelled.
- The `GoogleGenAI` client construction, `process.env.API_KEY` and `generateContent` are a network SDK. The call is the parameter `call`, and its outcome is `Responded(response)` or `Failed`.
- The constructor runs before the `try` (services/geminiService.ts:31), so an exception there escapes to the orchestrator. That is the `Throw` outcome of `App.Complete`.
- `temperature: 0.7` is a floating-point setting passed through to the SDK. It is not a field of `Gemini.Request`.
- `console.error` logging is not modelled.
- The `confirm()` dialog is the boolean parameter `confirmed` of `App.ClearChat`.
- Strings.Lower: `toLowerCase` is modelled for ASCII capitals and U+212A KELVIN SIGN, which JavaScript lower-cases to 'k'. Every other character is kept unchanged, whereas JavaScript lower-cases the whole of Unicode. Those other mappings never produce the ASCII letters of the two phrases the heuristic looks for, with one exception. U+0130 becomes 'i' followed by U+0307, but the only 'i' in either phrase is followed by an apostrophe, so that 'i' cannot be part of a match. `App.MentionsTask` therefore agrees with the source, as far as that list of Unicode mappings is complete; the model does not check the list against the Unicode tables.
- Strings are sequences of characters, not of UTF-16 code units. For text outside the Basic Multilingual Plane, `substring(0, 30)` and `slice` count differently in JavaScript.
