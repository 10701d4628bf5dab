/** The `GenerationState` record the page's controller operates on. */
module Types {
  import opened Values

  /** The four phases of one generation: the string-literal union of the
      record's `status` field. */
  datatype Status = Idle | Loading | Success | Error

  /** Exactly three fields: the phase, the last generated LaTeX (`null`
      until a generation succeeds) and the last error message (`null`
      unless the phase is `Error`). */
  datatype GenerationState = GenerationState(status: Status, latex: Option<string>, error: Option<string>)

  /** The state the page starts in: idle, no LaTeX, no error. */
  const InitialState := GenerationState(Idle, None, None)

  /** How the page reads the three fields: an error message is present
      exactly in the error phase, a success always carries LaTeX, and
      neither string is ever empty. */
  predicate Consistent(s: GenerationState) {
    && (s.error.Some? <==> s.status == Error)
    && (s.status == Success ==> s.latex.Some?)
    && (s.latex.Some? ==> s.latex.value != "")
    && (s.error.Some? ==> s.error.value != "")
  }
}
