/** The page controller: the generation state, the prompt buffer and the
    chat-session handle, and how user actions and chat results change them.
    Every handler is a pure transition; the asynchronous `handleGenerate` is
    split into its synchronous start (`Generate`) and its completion
    (`Settle`), which arrive as separate events. */
module AppController {
  import opened Values
  import opened JsString
  import opened Types
  import opened GeminiService

  /** The message shown when something other than an `Error` is thrown. */
  const UnexpectedError := "An unexpected error occurred"

  /** A thrown value: an `Error` object with its message, or anything else. */
  datatype Thrown = ErrorInstance(message: string) | OtherValue

  /** A message sent to the chat session `session`. */
  datatype Request = Request(session: nat, message: string)

  /** The controller's state. `chat` is the current session handle (absent
      before the mount effect runs); sessions are numbered in creation order
      and `created` is how many exist, so a new one is `Some(created)`. */
  datatype Page = Page(state: GenerationState, input: string, chat: Option<nat>, created: nat)

  /** What a key press in the prompt does. */
  datatype KeyEffect = SubmitPrompt | DefaultAction

  /** The user actions and results the page reacts to. */
  datatype Event =
    | Mount                        // the effect that creates the first session
    | Type(text: string)           // the text area's change event
    | ClickGenerate                // the generate button
    | KeyDown(key: string, shift: bool)
    | NewDocument                  // the logo or the "New Document" button
    | Resolve(reply: Reply)        // the chat call of a generation finishing

  /** The page as first rendered: empty prompt, idle, no session yet. */
  function Initial(): (p: Page)
    ensures p.state.status == Idle && p.state.latex.None? && p.state.error.None?
    ensures p.input == "" && p.chat.None?
  {
    Page(InitialState, "", None, 0)
  }

  /** `createChatSession`: the page gets a session no earlier one had. */
  function NewSession(p: Page): (r: Page)
    ensures r.chat.Some? && r.chat.value == p.created && r.created == p.created + 1
    ensures r.state == p.state && r.input == p.input
  {
    p.(chat := Some(p.created), created := p.created + 1)
  }

  /** The text area is disabled while a generation is loading. */
  predicate InputEnabled(p: Page) {
    p.state.status != Loading
  }

  /** The generate button is enabled only for a non-blank prompt while
      nothing is loading. */
  predicate CanSubmit(p: Page) {
    Trim(p.input) != "" && p.state.status != Loading
  }

  /** `handleKeyDown`: Enter without Shift submits (and suppresses the
      newline); every other key keeps its default behaviour. */
  function KeyAction(key: string, shift: bool): (r: KeyEffect)
    ensures r == SubmitPrompt <==> key == "Enter" && !shift
  {
    if key == "Enter" && !shift then SubmitPrompt else DefaultAction
  }

  /** `handleReset`: a fresh session, an empty prompt, the initial state. */
  function Reset(p: Page): (r: Page)
    ensures r.state == GenerationState(Idle, None, None)
    ensures r.input == ""
    ensures r.chat == Some(p.created) && r.created == p.created + 1
  {
    Page(InitialState, "", Some(p.created), p.created + 1)
  }

  /** The synchronous part of `handleGenerate`: a blank prompt does nothing;
      otherwise the page makes sure it has a session, moves to loading and
      sends the prompt, untrimmed, to that session. */
  function Generate(p: Page): (r: (Page, Option<Request>))
    ensures Trim(p.input) == "" ==> r.0 == p && r.1.None?
    ensures Trim(p.input) != "" ==>
              && r.0.state.status == Loading
              && r.0.state.error.None?
              && r.0.state.latex == p.state.latex
              && r.0.input == p.input
              && r.0.chat.Some?
              && (p.chat.Some? ==> r.0.chat == p.chat && r.0.created == p.created)
              && (p.chat.None? ==> r.0.chat == Some(p.created) && r.0.created == p.created + 1)
              && r.1 == Some(Request(r.0.chat.value, p.input))
  {
    if Trim(p.input) == "" then (p, None)
    else
      var q := if p.chat.None? then NewSession(p) else p;
      (q.(state := q.state.(status := Loading, error := None)), Some(Request(q.chat.value, p.input)))
  }

  /** The message the catch block records for a thrown value. */
  function ThrownMessage(e: Thrown): (r: string)
    ensures e.ErrorInstance? ==> r == e.message
    ensures e.OtherValue? ==> r == UnexpectedError
  {
    match e
    case ErrorInstance(m) => m
    case OtherValue => UnexpectedError
  }

  /** The completion of `handleGenerate`, applied to the state current at
      that moment: success replaces the whole record; failure keeps the
      LaTeX and records the message. */
  function Settle(s: GenerationState, outcome: Result<string, Thrown>): (r: GenerationState)
    ensures outcome.Ok? ==> r.status == Success && r.latex == Some(outcome.value) && r.error.None?
    ensures outcome.Err? ==>
              r.status == Error && r.latex == s.latex && r.error == Some(ThrownMessage(outcome.reason))
  {
    match outcome
    case Ok(text) => GenerationState(Success, Some(text), None)
    case Err(e) => s.(status := Error, error := Some(ThrownMessage(e)))
  }

  /** What `handleGenerate` catches or receives from `sendMessageToChat`:
      it only ever throws an `Error`. */
  function Completion(reply: Reply): (r: Result<string, Thrown>)
    ensures r.Ok? ==> r.value != ""
    ensures r.Err? ==> r.reason.ErrorInstance? && r.reason.message != ""
  {
    match SendMessage(reply)
    case Ok(text) => Ok(text)
    case Err(message) => Err(ErrorInstance(message))
  }

  /** One event. Events aimed at a disabled control are never delivered. A
      chat result may arrive at any moment, also after a reset: the page
      keeps no token to tell a stale result from a current one. */
  function Step(p: Page, e: Event): (r: Page)
    ensures e.Resolve? ==> r.input == p.input && r.chat == p.chat && r.created == p.created
    ensures e.NewDocument? ==> r.state == InitialState && r.input == "" && r.chat == Some(p.created)
    ensures (p.state.status == Loading && !e.Mount? && !e.NewDocument? && !e.Resolve?) ==> r == p
    ensures (p.state.status != Loading && Trim(p.input) == "" && (e.ClickGenerate? || e.KeyDown?)) ==> r == p
    ensures r.state.status == Loading ==>
              p.state.status == Loading || e.ClickGenerate? || (e.KeyDown? && e.key == "Enter" && !e.shift)
  {
    match e
    case Mount => NewSession(p)
    case Type(text) => if InputEnabled(p) then p.(input := text) else p
    case ClickGenerate => if CanSubmit(p) then Generate(p).0 else p
    case KeyDown(key, shift) =>
      if InputEnabled(p) && KeyAction(key, shift) == SubmitPrompt then Generate(p).0 else p
    case NewDocument => Reset(p)
    case Resolve(reply) => p.(state := Settle(p.state, Completion(reply)))
  }

  /** The page after a sequence of events. */
  function Run(p: Page, events: seq<Event>): Page
    decreases |events|
  {
    if events == [] then p else Run(Step(p, events[0]), events[1..])
  }

  /** Running two event sequences one after the other is running their
      concatenation: the page keeps no other memory of its history. */
  lemma {:induction false} RunConcat(p: Page, first: seq<Event>, second: seq<Event>)
    ensures Run(p, first + second) == Run(Run(p, first), second)
    decreases |first|
  {
    if first == [] {
      assert first + second == second;
    } else {
      var rest := first[1..] + second;
      assert first + second == [first[0]] + rest;
      RunConcat(Step(p, first[0]), first[1..], second);
    }
  }

  /** What holds of every page reachable from the initial one. */
  predicate Invariant(p: Page) {
    && Consistent(p.state)
    && (p.chat.Some? ==> p.chat.value < p.created)
  }

  // ---------------------------------------------------------------------
  // Properties of the transitions

  /** The button is enabled exactly when the prompt has a non-white-space
      character and nothing is loading. */
  lemma SubmitEnabledIff(p: Page)
    ensures CanSubmit(p) <==> !AllSpaces(p.input) && p.state.status != Loading
  {
    TrimEmptyIffBlank(p.input);
  }

  /** A blank prompt is ignored by both the button and the Enter key. */
  lemma BlankSubmitIsNoop(p: Page, e: Event)
    requires AllSpaces(p.input)
    requires e.ClickGenerate? || e.KeyDown?
    ensures Step(p, e) == p
  {
    TrimEmptyIffBlank(p.input);
  }

  /** While loading, typing, clicking and key presses change nothing. */
  lemma LoadingIgnoresInput(p: Page, e: Event)
    requires p.state.status == Loading
    requires e.Type? || e.ClickGenerate? || e.KeyDown?
    ensures Step(p, e) == p
  {
  }

  /** Enter without Shift does exactly what the button does. */
  lemma EnterActsLikeButton(p: Page)
    ensures Step(p, KeyDown("Enter", false)) == Step(p, ClickGenerate)
  {
  }

  /** Enter with Shift, and any other key, leave the page as it is (the
      text change they cause arrives as its own `Type` event). */
  lemma OtherKeysAreNoop(p: Page, key: string, shift: bool)
    requires key != "Enter" || shift
    ensures Step(p, KeyDown(key, shift)) == p
  {
  }

  /** Submitting a prompt that is not blank, from any state but loading,
      starts a generation: loading, error cleared, LaTeX kept. */
  lemma SubmitStartsLoading(p: Page, e: Event)
    requires p.state.status != Loading && !AllSpaces(p.input)
    requires e.ClickGenerate? || e == KeyDown("Enter", false)
    ensures Step(p, e).state == p.state.(status := Loading, error := None)
    ensures Step(p, e).input == p.input
  {
    TrimEmptyIffBlank(p.input);
  }

  /** Only a reset leads into the idle state. */
  lemma IdleOnlyByReset(p: Page, e: Event)
    requires p.state.status != Idle
    ensures Step(p, e).state.status == Idle <==> e.NewDocument?
  {
  }

  /** The page starts loading only on a submit. */
  lemma LoadingOnlyBySubmit(p: Page, e: Event)
    requires p.state.status != Loading
    requires Step(p, e).state.status == Loading
    ensures e.ClickGenerate? || e == KeyDown("Enter", false)
  {
  }

  /** A reset session is new: it differs from every session handed out
      before, in particular from the one it replaces. */
  lemma ResetSessionIsFresh(p: Page)
    requires Invariant(p)
    ensures Reset(p).chat.Some?
    ensures p.chat.Some? ==> Reset(p).chat.value > p.chat.value
  {
  }

  /** A failed follow-up keeps the last good document visible in the state. */
  lemma FailureKeepsLatex(p: Page, message: Option<string>)
    ensures Step(p, Resolve(Failed(message))).state.latex == p.state.latex
    ensures Step(p, Resolve(Failed(message))).state.status == Error
    ensures Step(p, Resolve(Failed(message))).state.error == Some(FailureMessage(message))
  {
  }

  /** A result that arrives after a reset is still applied: the reset does
      not shield the new document from an older request's answer. */
  lemma StaleResultAfterReset(p: Page, text: Option<string>)
    ensures Step(Reset(p), Resolve(Answered(text))).state.status == Success
    ensures Step(Reset(p), Resolve(Answered(text))).state.latex == Some(Sanitise(text))
  {
    ResolveStep(Reset(p), Answered(text));
  }

  /** A chat result touches neither the prompt nor the session. An answer
      replaces the whole record by a success holding the cleaned text, on any
      page; a failure keeps the LaTeX and records the failure message. */
  lemma ResolveStep(p: Page, reply: Reply)
    ensures var q := Step(p, Resolve(reply));
            q.input == p.input && q.chat == p.chat && q.created == p.created
    ensures reply.Answered? ==>
              Step(p, Resolve(reply)).state == GenerationState(Success, Some(Sanitise(reply.text)), None)
    ensures reply.Failed? ==>
              Step(p, Resolve(reply)).state
                == p.state.(status := Error, error := Some(FailureMessage(reply.message)))
  {
  }

  /** Every transition keeps the invariant. */
  lemma StepKeepsInvariant(p: Page, e: Event)
    requires Invariant(p)
    ensures Invariant(Step(p, e))
  {
  }

  /** Every page reachable from `p` keeps the invariant. */
  lemma {:induction false} RunKeepsInvariant(p: Page, events: seq<Event>)
    requires Invariant(p)
    ensures Invariant(Run(p, events))
    decreases |events|
  {
    if events != [] {
      StepKeepsInvariant(p, events[0]);
      RunKeepsInvariant(Step(p, events[0]), events[1..]);
    }
  }

  /** In every page reachable from the initial one: an error message exactly
      in the error state, and a non-empty document whenever the phase is
      success, so the result preview (shown for success with a truthy
      `latex`) appears exactly in that phase. */
  lemma ReachableInvariant(events: seq<Event>)
    ensures var p := Run(Initial(), events);
            && (p.state.error.Some? <==> p.state.status == Error)
            && (p.state.status == Success ==> p.state.latex.Some?)
            && (p.state.status == Success <==> ShowsPreview(p))
  {
    RunKeepsInvariant(Initial(), events);
  }

  /** The condition under which the page renders the result preview: the
      phase is success and `latex` is a non-empty string. */
  predicate ShowsPreview(p: Page) {
    p.state.status == Success && p.state.latex.Some? && p.state.latex.value != ""
  }
}
