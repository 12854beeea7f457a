/** The browser-stored Groq API key shared by the settings page, the key
    manager and the rate-limit dialog: all three keep it in local storage
    under one name and accept a typed key only once trimmed and non-blank. */
module ApiKeys {
  import opened Wrappers
  import opened Text

  const StorageKey := "groq_api_key"

  /** The key a save accepts from the input box: its trimmed text, or
      `None` for a blank input. */
  function Entered(input: Str): (r: Option<Str>)
    ensures r.Some? ==> r.value != "" && TrimmedBy(r.value, JsIsSpace)
  {
    var t := JsTrim(input);
    if Truthy(t) then Some(t) else None
  }

  /** An input is accepted exactly when it has a non-space character, and
      an accepted key is accepted again unchanged. */
  lemma EnteredAccepts(input: Str)
    ensures Entered(input).Some? <==> exists k :: 0 <= k < |input| && !JsIsSpace(input[k])
    ensures Entered(input).Some? ==> Entered(Entered(input).value) == Entered(input)
  {
    JsTrimTruthy(input);
    if Entered(input).Some? {
      TrimOfTrimmed(Entered(input).value, JsIsSpace);
    }
  }

  /** `localStorage.getItem` of the key, an absent item read as "". */
  function StoredText(stored: Option<Str>): Str { stored.GetOr("") }
}
