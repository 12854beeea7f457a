/** The API key banner and dialog (frontend/components/api-key-manager.tsx):
    load, save, remove and open, with the `isDemo` flag kept beside the
    key. */
module ApiKeyManager {
  import opened Wrappers
  import opened Text
  import opened ApiKeys

  datatype Manager = Manager(stored: Option<Str>, apiKey: Str, dialogOpen: bool, tempApiKey: Str, isDemo: bool)

  /** The state before the mount effect. */
  function Initial(stored: Option<Str>): Manager { Manager(stored, "", false, "", true) }

  /** A handler's new state and the value passed to `onApiKeyChange`, if it
      was called. */
  datatype Step = Step(state: Manager, notified: Option<Str>)

  /** `isDemo` tracks the absence of a key. */
  predicate DemoInvariant(m: Manager) { m.isDemo == (m.apiKey == "") }

  /** The mount effect: a non-empty stored key is adopted and reported. */
  function Load(m: Manager): (r: Step)
    ensures m.stored.Some? && m.stored.value != "" ==>
              r == Step(m.(apiKey := m.stored.value, isDemo := false), Some(m.stored.value))
    ensures m.stored.None? || m.stored.value == "" ==> r == Step(m, None)
  {
    if m.stored.Some? && Truthy(m.stored.value) then
      Step(m.(apiKey := m.stored.value, isDemo := false), Some(m.stored.value))
    else Step(m, None)
  }

  /** `handleSaveApiKey`: a non-blank key is stored trimmed, adopted,
      reported, and the dialog closes with an empty input; a blank one
      changes nothing. */
  function Save(m: Manager): (r: Step)
    ensures Entered(m.tempApiKey).None? ==> r == Step(m, None)
    ensures Entered(m.tempApiKey).Some? ==>
              var t := Entered(m.tempApiKey).value;
              r == Step(Manager(Some(t), t, false, "", false), Some(t))
  {
    match Entered(m.tempApiKey)
    case None => Step(m, None)
    case Some(t) => Step(Manager(Some(t), t, false, "", false), Some(t))
  }

  /** `handleRemoveApiKey`. */
  function Remove(m: Manager): (r: Step)
    ensures r == Step(m.(stored := None, apiKey := "", isDemo := true, dialogOpen := false), Some(""))
  {
    Step(m.(stored := None, apiKey := "", isDemo := true, dialogOpen := false), Some(""))
  }

  /** `openApiKeyDialog`: the input starts from the current key. */
  function Open(m: Manager): (r: Manager)
    ensures r == m.(tempApiKey := m.apiKey, dialogOpen := true)
  {
    m.(tempApiKey := m.apiKey, dialogOpen := true)
  }

  /** The invariant holds before loading and every handler keeps it; what
      the callback hears is always the key now in use. */
  lemma DemoInvariantKept(stored: Option<Str>, m: Manager)
    ensures DemoInvariant(Initial(stored))
    ensures DemoInvariant(m) ==>
              DemoInvariant(Load(m).state) && DemoInvariant(Save(m).state)
              && DemoInvariant(Remove(m).state) && DemoInvariant(Open(m))
    ensures Load(m).notified.Some? ==> Load(m).notified.value == Load(m).state.apiKey
    ensures Save(m).notified.Some? ==> Save(m).notified.value == Save(m).state.apiKey
    ensures Remove(m).notified.value == Remove(m).state.apiKey
  {
  }

  /** A reload shows what the handlers left: a saved key is loaded back and
      reported again, a removed one leaves the page in demo mode with
      nothing reported, and opening the dialog and saving the untouched
      input keeps the current key. */
  lemma ReloadRestoresKey(m: Manager)
    ensures Entered(m.tempApiKey).Some? ==>
              && Load(Initial(Save(m).state.stored)).state.apiKey == Save(m).state.apiKey
              && Load(Initial(Save(m).state.stored)).notified == Save(m).notified
    ensures Load(Initial(Remove(m).state.stored)) == Step(Initial(None), None)
    ensures m.apiKey == "" || Entered(m.apiKey) == Some(m.apiKey) ==> Save(Open(m)).state.apiKey == m.apiKey
  {
  }

  /** The key button's label. */
  function KeyButtonLabel(m: Manager): Str { if m.apiKey != "" then "Update API Key" else "Add API Key" }

  /** Whether the Remove Key button is rendered. */
  predicate ShowsRemove(m: Manager) { m.apiKey != "" }

  /** Under the invariant, the label, the Remove button and demo mode tell
      the same story. */
  lemma ControlsMatchDemo(m: Manager)
    requires DemoInvariant(m)
    ensures ShowsRemove(m) <==> !m.isDemo
    ensures KeyButtonLabel(m) == "Update API Key" <==> !m.isDemo
  {
  }
}
