/** The dialog shown when the demo quota is exhausted
    (frontend/components/rate-limit-dialog.tsx). */
module RateLimitDialog {
  import opened Wrappers
  import opened Text
  import opened ApiKeys

  const DefaultDescription := "You've reached the demo usage limit. Add your Groq API key to continue."

  /** The description: the error message when there is one. The dialog
      never shows an empty description. */
  function Description(errorMessage: Str): (r: Str)
    ensures r != ""
    ensures errorMessage != "" ==> r == errorMessage
    ensures errorMessage == "" ==> r == DefaultDescription
  {
    if Truthy(errorMessage) then errorMessage else DefaultDescription
  }

  /** The dialog's input and the storage it writes. */
  datatype DialogState = DialogState(stored: Option<Str>, apiKey: Str)

  /** A submit's new state, the key handed to `onApiKeySubmit`, and the
      open state requested of the parent (`None`: no request). */
  datatype Submitted = Submitted(state: DialogState, submitted: Option<Str>, requestOpen: Option<bool>)

  /** `handleSubmit`. */
  function Submit(s: DialogState): (r: Submitted)
    ensures Entered(s.apiKey).None? ==> r == Submitted(s, None, None)
    ensures Entered(s.apiKey).Some? ==>
              r == Submitted(DialogState(Entered(s.apiKey), ""), Entered(s.apiKey), Some(false))
  {
    match Entered(s.apiKey)
    case None => Submitted(s, None, None)
    case Some(t) => Submitted(DialogState(Some(t), ""), Some(t), Some(false))
  }

  /** A key press in the input: Enter submits, any other key does nothing. */
  function KeyDown(s: DialogState, key: Str): (r: Submitted)
    ensures key != "Enter" ==> r == Submitted(s, None, None)
  {
    if key == "Enter" then Submit(s) else Submitted(s, None, None)
  }

  /** The submit button. */
  predicate SubmitDisabled(s: DialogState) { JsTrim(s.apiKey) == "" }

  /** Enter does what the button does; the button is disabled exactly when
      a submit would do nothing; a submit stores what it reports and leaves
      an input that cannot be submitted again. */
  lemma SubmitAgrees(s: DialogState)
    ensures KeyDown(s, "Enter") == Submit(s)
    ensures SubmitDisabled(s) <==> Submit(s).submitted.None?
    ensures Submit(s).submitted.Some? ==>
              Submit(s).state.stored == Submit(s).submitted && SubmitDisabled(Submit(s).state)
  {
  }
}
