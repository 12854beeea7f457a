/** The API configuration card (frontend/components/api-settings.tsx): the
    masked display of the key and the load, save, remove and cancel
    transitions over the stored key and the component's state. */
module ApiSettings {
  import opened Wrappers
  import opened Text
  import opened ApiKeys

  /** `maskApiKey`: the first seven and last four characters around "...";
      short keys keep what they have. Lengths count code points here,
      where JavaScript's `substring` counts UTF-16 code units; the two
      agree on keys without astral characters. */
  function MaskApiKey(key: Str): (r: Str)
    ensures key == "" ==> r == ""
    ensures key != "" ==> |r| == Min(7, |key|) + 3 + Min(4, |key|)
    ensures key != "" ==> r[..Min(7, |key|)] == key[..Min(7, |key|)]
    ensures key != "" ==> r[|r| - Min(4, |key|)..] == key[|key| - Min(4, |key|)..]
  {
    if key == "" then ""
    else key[..Min(7, |key|)] + "..." + key[|key| - Min(4, |key|)..]
  }

  function Min(a: int, b: int): int { if a < b then a else b }

  /** A key of eleven or more characters always masks to fourteen, and the
      mask depends only on the first seven and last four characters. */
  lemma MaskHidesMiddle(k1: Str, k2: Str)
    requires |k1| >= 11 && |k2| >= 11
    requires k1[..7] == k2[..7] && k1[|k1| - 4..] == k2[|k2| - 4..]
    ensures |MaskApiKey(k1)| == 14
    ensures MaskApiKey(k1) == MaskApiKey(k2)
  {
  }

  datatype Settings = Settings(stored: Option<Str>, apiKey: Str, tempApiKey: Str, isEditing: bool)

  /** The mount effect: a non-empty stored key fills both fields. */
  function Load(stored: Option<Str>): (r: Settings)
    ensures r.apiKey == StoredText(stored) && r.tempApiKey == StoredText(stored) && !r.isEditing
  {
    if stored.Some? && Truthy(stored.value) then Settings(stored, stored.value, stored.value, false)
    else Settings(stored, "", "", false)
  }

  /** Demo mode is shown while there is no key. */
  predicate IsDemo(s: Settings) { s.apiKey == "" }

  /** Storage and the shown key agree. */
  predicate InSync(s: Settings) { StoredText(s.stored) == s.apiKey }

  /** The Save button. */
  predicate SaveDisabled(s: Settings) { Entered(s.tempApiKey).None? }

  /** `handleSave`. */
  function Save(s: Settings): (r: Settings)
    ensures Entered(s.tempApiKey).None? ==> r == s
    ensures Entered(s.tempApiKey).Some? ==>
              r == s.(stored := Entered(s.tempApiKey), apiKey := Entered(s.tempApiKey).value, isEditing := false)
  {
    match Entered(s.tempApiKey)
    case None => s
    case Some(t) => s.(stored := Some(t), apiKey := t, isEditing := false)
  }

  /** `handleRemove`. */
  function Remove(s: Settings): (r: Settings)
    ensures r == Settings(None, "", "", false)
  {
    Settings(None, "", "", false)
  }

  /** `handleCancel`: the input goes back to the saved key. */
  function Cancel(s: Settings): (r: Settings)
    ensures r == s.(tempApiKey := s.apiKey, isEditing := false)
  {
    s.(tempApiKey := s.apiKey, isEditing := false)
  }

  /** Storage and the shown key agree after loading and stay in agreement
      through every handler, so demo mode means no stored key. */
  lemma StorageInSync(stored: Option<Str>, s: Settings)
    ensures InSync(Load(stored))
    ensures InSync(s) ==> InSync(Save(s)) && InSync(Remove(s)) && InSync(Cancel(s))
    ensures InSync(s) ==> (IsDemo(s) <==> StoredText(s.stored) == "")
  {
  }

  /** What a handler leaves on screen is what a reload shows: a saved key
      is loaded back from storage, and after Remove the page reloads in
      demo mode. */
  lemma ReloadShowsSavedKey(s: Settings)
    ensures Entered(s.tempApiKey).Some? ==>
              Load(Save(s).stored).apiKey == Entered(s.tempApiKey).value && !IsDemo(Load(Save(s).stored))
    ensures InSync(s) ==> Load(Save(s).stored).apiKey == Save(s).apiKey
    ensures InSync(s) ==> Load(Cancel(s).stored).apiKey == Cancel(s).apiKey
    ensures IsDemo(Load(Remove(s).stored)) && Load(Remove(s).stored) == Remove(s)
  {
  }

  /** The disabled Save button and the handler's guard agree, and an
      enabled save always leaves demo mode. */
  lemma SaveGuardAgrees(s: Settings)
    ensures SaveDisabled(s) ==> Save(s) == s
    ensures !SaveDisabled(s) ==> !IsDemo(Save(s)) && !Save(s).isEditing
  {
  }

  /** Cancelling after typing restores the input to the saved key. */
  lemma CancelDiscardsTyping(s: Settings, typed: Str)
    ensures Cancel(s.(tempApiKey := typed, isEditing := true)) == Cancel(s)
  {
  }
}
