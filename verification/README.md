# LatexGenius: the generation controller and the output sanitiser

LatexGenius is a single-page front end. The user describes a document. The page sends the
description to a Gemini chat session and shows the LaTeX that comes back, ready to copy or
to open in Overleaf. This project models the two parts of the page that carry logic, as
pure Dafny functions with proved properties:

- **`sendMessageToChat`** (module `GeminiService`). The model's reply goes through three
  regular-expression replacements. They strip a leading "```latex" fence (any letter case),
  then a leading bare "```" fence, then a trailing "```". An empty outcome becomes the
  placeholder `% No output generated.`. A failure becomes an error whose message is the
  failure's own message, or `Failed to generate LaTeX.` when that message is empty or absent.
  The chat call itself is a parameter: a `Reply` that is either a response text (possibly
  absent or empty) or a failure message (possibly absent or empty).
- **The page controller** (module `AppController`, over the `GenerationState` record of
  module `Types`). It holds the state record `(status, latex, error)`, the prompt buffer and the
  chat-session handle. The handlers are transitions: reset, the start and the completion
  of a generation, the Enter-key mapping, and the enable conditions of the text area and
  the button. `Step` applies one user action or chat result. `Run` applies a sequence of them.
  An invariant is proved for every page reachable from the initial one.

Module `JsString` holds the JavaScript string behaviour these rely on. It covers the
white-space class used by both `\s` and `String.prototype.trim`, and `trim` itself.
Module `Values` holds `Option` (for `null`/`undefined`) and `Result`.

Modelling decisions:

- With the `i` flag and no `u` flag, a JavaScript regular expression compares characters
  after upper-casing them, and never lets a non-ASCII character fold onto an ASCII one.
  So "latex" matches exactly the five-character strings whose ASCII lower case is "latex"
  (`LowerAscii`, `IsLatexTag`).
- Without the `m` flag, `$` is the end of the whole string. So only a fence in the last three
  characters is removed, and only once.
- `handleGenerate` itself checks only for a blank prompt. The loading guard is the disabled
  button (App.tsx:123) and the disabled text area (App.tsx:114). `Step` drops events aimed at
  a disabled control.
- `handleGenerate` is asynchronous. Its synchronous start is `Generate`. Its completion is a
  separate `Resolve` event, applied to the state current at that moment (`Settle`). A
  `Resolve` may arrive in any state, including after a reset. This over-approximates the
  real interleavings, and the invariant is proved for all of them.
- `Mount` is also an over-approximation. `Step` accepts it at any moment and any number of
  times, while the effect at App.tsx:20-22 runs once, after the first render. Each extra
  `Mount` only installs another fresh session, so the invariant covers these runs too.
- Chat sessions are numbered in creation order. `created` counts them. The handle is absent
  until the mount effect runs (App.tsx:17-22).
- JavaScript strings are UTF-16 code units, while Dafny `char`s are Unicode scalar values.
  The characters the sanitiser tests for (white space, the backtick, ASCII letters) all lie
  in the Basic Multilingual Plane, and each is one code unit and one `char`. Other characters
  are only skipped over or kept, so for well-formed text the difference does not arise.

## Model

| member | source | states |
|---|---|---|
| JsString.IsSpace | services/geminiService.ts:47 | the characters `\s` matches, which are also the ones `trim` removes: the ECMAScript white-space and line-terminator code points |
| JsString.Trim | App.tsx:31 | `trim` is never longer than its input, and its result is empty or starts and ends with a character that is not white space |
| JsString.SkipSpacesFrom | services/geminiService.ts:47 | the greedy `\s*` matched at a position stops at the end of the run of white space there: everything it passes is white space and the next character is not |
| JsString.SpacesBackTo | App.tsx:31 | the run of trailing white space `trim` removes is all white space and is preceded by a character that is not |
| JsString.SkipSpacesOverRun | services/geminiService.ts:47 | a run of white space followed by a character that is not white space, or by the end, is exactly what `\s*` consumes |
| JsString.TrimRemovesOnlySpaces | App.tsx:31 | `trim` removes only white space, from both ends, and the result neither starts nor ends with white space |
| JsString.SplitAroundSpaces | App.tsx:31 | cutting a string where its two outer parts are white space yields those parts and the middle |
| JsString.TrimEmptyIffBlank | App.tsx:31 | `!s.trim()` holds exactly when every character of `s` is white space |
| GeminiService.LowerAscii | services/geminiService.ts:47 | case folding maps an upper-case ASCII letter to its lower-case partner and leaves every other character alone |
| GeminiService.HasLatexFence | services/geminiService.ts:47 | where `^```latex` matches case-insensitively: three backticks at the start, then "latex" in any letter case |
| GeminiService.StartsWithFence | services/geminiService.ts:47 | where `^```` matches: three backticks at the start |
| GeminiService.EndsWithFence | services/geminiService.ts:47 | where "```$" matches without the `m` flag: three backticks as the last three characters of the whole string |
| GeminiService.StripLatexFence | services/geminiService.ts:47 | a case-insensitive leading "```latex" and all white space after it are removed, leaving a suffix that does not start with white space; any other text is untouched |
| GeminiService.StripOpeningFence | services/geminiService.ts:47 | a leading "```" and all white space after it are removed, leaving a suffix that does not start with white space; any other text is untouched |
| GeminiService.StripClosingFence | services/geminiService.ts:47 | a "```" that is the last three characters is removed once, so appending a fence restores the input; otherwise nothing changes |
| GeminiService.StripFences | services/geminiService.ts:47 | the replacement chain never lengthens the text |
| GeminiService.Sanitise | services/geminiService.ts:43-50 | the returned text is never empty, and an absent text yields the placeholder |
| GeminiService.FailureMessage | services/geminiService.ts:51-53 | the thrown message is the failure's own message when non-empty, otherwise "Failed to generate LaTeX.", and never empty |
| GeminiService.SendMessage | services/geminiService.ts:37-55 | a response resolves and a failure rejects, each with a non-empty string |
| GeminiService.SanitiseOutcome | services/geminiService.ts:46-50 | an absent or empty text, or one the stripping empties, yields exactly the placeholder; otherwise the stripped text |
| GeminiService.StripFencesIsSlice | services/geminiService.ts:47 | the stripping only cuts characters off the two ends: the result is a contiguous piece of the input |
| GeminiService.PrefixOfSuffixOfSuffix | services/geminiService.ts:47 | two suffix cuts followed by a prefix cut leave a contiguous piece of the original |
| GeminiService.SanitiseIsSliceOfRaw | services/geminiService.ts:46-50 | any result other than the placeholder is a contiguous piece of the raw text and no longer than it |
| GeminiService.UnfencedUnchanged | services/geminiService.ts:46-50 | a non-empty text that neither starts nor ends with "```" is returned unchanged, white-space-only text included |
| GeminiService.FencedRoundTrip | services/geminiService.ts:47 | "```" + a five-letter tag equal to "latex" ignoring case + white space + body + "```" yields the body, when the body is non-empty and starts with neither white space nor a backtick |
| GeminiService.MixedCaseFencedDocument | services/geminiService.ts:47 | a "```LaTeX" fenced document loses both fences and keeps the newline before the closing fence |
| GeminiService.FenceBeforeNewlineKept | services/geminiService.ts:47 | "X```\n" is returned unchanged: a fence followed by a newline is not at the end |
| GeminiService.DoubleClosingFence | services/geminiService.ts:47 | "X``````" becomes "X```": the closing fence is removed at most once |
| GeminiService.LatexFenceThenBareFence | services/geminiService.ts:47 | "```latex\n```\nX" becomes "X": the bare-fence replacement runs on the already stripped text |
| GeminiService.OtherTagKeepsName | services/geminiService.ts:47 | "```python\nX" becomes "python\nX": another tag loses only its backticks |
| GeminiService.BareFenceIsPlaceholder | services/geminiService.ts:46-50 | a text that is only "```" is emptied by the stripping and becomes the placeholder |
| Types.Consistent | types.ts:1-5 | how the page reads the three fields of the record: an error message exactly in the error phase, LaTeX whenever the phase is success, and no empty strings |
| AppController.Initial | App.tsx:9-14 | the page starts idle with no LaTeX, no error, an empty prompt and no session |
| AppController.NewSession | App.tsx:19-22 | creating a session installs a handle numbered after every earlier one and changes nothing else |
| AppController.KeyAction | App.tsx:48-53 | a key press submits exactly when it is Enter without Shift |
| AppController.InputEnabled | App.tsx:114 | the text area accepts typing and keys exactly when no generation is loading |
| AppController.CanSubmit | App.tsx:123 | the button is enabled exactly when the trimmed prompt is non-empty and no generation is loading |
| AppController.Step | App.tsx:20-123 | one event on the page: a chat result never touches the prompt or the session; a reset gives the initial state, an empty prompt and the next session; while loading, every typed character, key and click is dropped; a blank prompt submits nothing; and only a click or Enter without Shift can start loading |
| AppController.Run | App.tsx:20-123 | the page after a sequence of events, one at a time in order |
| AppController.RunConcat | App.tsx:20-123 | a structural fact about `Run`: running two event sequences in turn is running their concatenation, so histories can be split and joined |
| AppController.ShowsPreview | App.tsx:163 | the preview is rendered exactly when the phase is success and the LaTeX is a non-empty string |
| AppController.Reset | App.tsx:24-28 | reset yields idle, no LaTeX, no error, an empty prompt and a new session, whatever the prior page |
| AppController.Generate | App.tsx:30-34 | a blank prompt changes nothing and sends nothing; otherwise a page without a session gets a fresh one, numbered by the count of created sessions, while a page with one keeps it; the page then moves to loading, clears the error, keeps the LaTeX and the prompt, and sends the untrimmed prompt to its session |
| AppController.ThrownMessage | App.tsx:43 | an `Error` contributes its message; any other thrown value gives "An unexpected error occurred" |
| AppController.Settle | App.tsx:36-45 | success sets the LaTeX to the returned text and clears the error; failure moves to error, records the message and keeps the LaTeX |
| AppController.Completion | services/geminiService.ts:50-53 | what the page receives is a non-empty text or an `Error` with a non-empty message |
| AppController.SubmitEnabledIff | App.tsx:123 | the button is enabled exactly when the prompt has a non-white-space character and nothing is loading |
| AppController.BlankSubmitIsNoop | App.tsx:31 | submitting a blank prompt by button or key changes nothing |
| AppController.LoadingIgnoresInput | App.tsx:114 | while loading, typing, clicking and key presses change nothing |
| AppController.EnterActsLikeButton | App.tsx:48-53 | Enter without Shift has exactly the effect of the button |
| AppController.OtherKeysAreNoop | App.tsx:48-53 | Enter with Shift, and any other key, leave the page unchanged |
| AppController.SubmitStartsLoading | App.tsx:30-34 | a non-blank submit outside loading sets loading, clears the error, keeps the LaTeX and keeps the prompt |
| AppController.IdleOnlyByReset | App.tsx:24-46 | from any phase other than idle, an event leads to idle exactly when it is a reset |
| AppController.LoadingOnlyBySubmit | App.tsx:30-53 | the page enters loading only on a button click or Enter without Shift |
| AppController.ResetSessionIsFresh | App.tsx:24-25 | the session a reset installs is numbered above the one it replaces |
| AppController.FailureKeepsLatex | App.tsx:39-44 | a failed generation keeps the previous LaTeX, moves to error and records the failure's message or the generic one |
| AppController.ResolveStep | App.tsx:36-45 | a chat result never touches the prompt or the session; an answer makes the state success with the cleaned text and no error, whatever it was before; a failure keeps the LaTeX, sets the error phase and records the failure message |
| AppController.StaleResultAfterReset | App.tsx:36-38 | a result that arrives after a reset is still applied, so reset is not final |
| AppController.Invariant | App.tsx:24-45 | what every handler keeps: a consistent generation state, and a session handle numbered below the count of created sessions |
| AppController.StepKeepsInvariant | App.tsx:24-53 | every transition keeps the invariant: error present exactly in the error phase, LaTeX present in success, stored texts non-empty, session numbered below the count |
| AppController.RunKeepsInvariant | App.tsx:24-53 | every sequence of events keeps the invariant |
| AppController.ReachableInvariant | App.tsx:10-53 | in every page reachable from the initial one, an error exists exactly in the error phase, success implies LaTeX, and the result preview appears exactly in success |

## Left out

- `createChatSession`'s configuration (model name, system instruction, temperature 0.2,
  thinking budget 2048) is not modelled. It is a constant passed to the chat service and has
  no behaviour here. A session is an opaque number.
- `chat.sendMessage` is not modelled. It is a foreign call, and its outcome is the `Reply`
  parameter.
- The `console.error` logging of a failure is not modelled. It is I/O.
- A failure `message` that is a truthy non-string is not modelled. The error `Reply` carries
  an optional string only.
- A missing `API_KEY` at module load is not modelled. It is process configuration.
- components/LatexPreview.tsx is not part of this model. Clipboard writes, the two-second
  "copied" timer and the hidden-form POST to Overleaf are browser I/O.
- The JSX rendering and styling of App.tsx is not modelled, except for two conditions: the
  enable conditions of the text area and button, and the result-preview condition (`ShowsPreview`).
- The order in which asynchronous results interleave with later events is not modelled.
  `Resolve` may happen in any state, but no bookkeeping of in-flight requests is kept.
  So there is no theorem that each submit is followed by exactly one completion.
- JsString.IsSpace lists the ECMAScript white-space and line-terminator code points, taking
  the Unicode space separators as of current Unicode. The general lemmas do not depend on
  which characters the set contains. The examples on concrete strings do: they rely on
  `'\n'` being white space and on `` '`' ``, `'\\'`, `'p'` and `'X'` not being white space.
- Unpaired surrogates are not modelled. A JavaScript string may hold one, but a Dafny
  `string` cannot, so such text is outside the model.
- GeminiService.FailureMessage: a rejection whose reason is `null` or `undefined` is not
  represented. For it, reading `error.message` in the catch block throws a `TypeError`. The
  page would then show that error's engine-specific message, not "Failed to generate LaTeX.".
  `Failed(None)` stands for an error object that has no message.
