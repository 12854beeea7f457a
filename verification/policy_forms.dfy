/** The policy editing logic that the policy selector and the policy
    management page share line for line (frontend/components/policy-selector.tsx
    and frontend/components/policy-management.tsx): the create-policy form,
    the delete trackers and the rule editor. Each handler is a transition
    from the component's state and the request's outcome to the next state
    and the request it sent. */
module PolicyForms {
  import opened Wrappers
  import opened Text
  import opened Ui
  import ApiClient
  import Handler

  // ---------------------------------------------------------------------
  // Create-policy dialog

  datatype NewPolicyForm = NewPolicyForm(title: Str, category: Str, file: Option<ApiClient.File>)

  const EmptyForm := NewPolicyForm("", "", None)

  /** File, title and category are all set. */
  predicate FormComplete(f: NewPolicyForm) { f.file.Some? && f.title != "" && f.category != "" }

  /** The Create button. */
  predicate CreateDisabled(uploading: bool, f: NewPolicyForm) { uploading || !FormComplete(f) }

  datatype CreateState = CreateState(dialogOpen: bool, form: NewPolicyForm)

  /** The state after a create click, the upload it sent (if any) and
      whether the list was refetched. */
  datatype CreateRun = CreateRun(state: CreateState, sent: Option<ApiClient.Call>, refetched: bool)

  /** `handleCreatePolicy`: nothing happens on an incomplete form; a
      successful upload closes the dialog and empties the form, a failed one
      keeps both. */
  function CreatePolicy(st: CreateState, base: Str, succeeded: bool): (r: CreateRun)
    ensures r.sent.Some? <==> FormComplete(st.form)
    ensures r.sent.Some? ==>
              r.sent.value == ApiClient.UploadPolicy(base, st.form.file.value, st.form.title, st.form.category)
    ensures r.refetched <==> r.sent.Some? && succeeded
    ensures r.refetched ==> r.state == CreateState(false, EmptyForm)
    ensures !r.refetched ==> r.state == st
  {
    if !FormComplete(st.form) then CreateRun(st, None, false)
    else
      var call := ApiClient.UploadPolicy(base, st.form.file.value, st.form.title, st.form.category);
      if succeeded then CreateRun(CreateState(false, EmptyForm), Some(call), true)
      else CreateRun(st, Some(call), false)
  }

  /** The enabled button and the handler's guard agree: a click on an
      enabled button sends an upload the server will bind, and the form it
      leaves behind after success cannot be submitted again. */
  lemma CreateGuardAgrees(st: CreateState, base: Str, succeeded: bool)
    ensures !CreateDisabled(false, st.form) <==> CreatePolicy(st, base, succeeded).sent.Some?
    ensures CreatePolicy(st, base, succeeded).refetched ==>
              CreatePolicy(CreatePolicy(st, base, succeeded).state, base, succeeded).sent.None?
    ensures CreatePolicy(st, base, succeeded).sent.Some? ==>
              var fields := CreatePolicy(st, base, succeeded).sent.value.init.body.fields;
              Handler.BindUploadPolicy(Handler.UploadForm(ApiClient.FormFile(fields, "file"),
                                                          ApiClient.FormText(fields, "title"),
                                                          ApiClient.FormText(fields, "category"))).Some?
  {
    if FormComplete(st.form) {
      ApiClient.UploadPolicyBinds(base, st.form.file.value, st.form.title, st.form.category);
    }
  }

  /** `handleFileChange`: the first chosen file replaces the form's file;
      an empty choice keeps it. */
  function ChooseFile(f: NewPolicyForm, files: seq<ApiClient.File>): (r: NewPolicyForm)
    ensures r.title == f.title && r.category == f.category
    ensures |files| > 0 ==> r.file == Some(files[0])
    ensures |files| == 0 ==> r == f
  {
    if |files| > 0 then f.(file := Some(files[0])) else f
  }

  /** Choosing a file completes a form whose title and category are set,
      and the upload then sent carries the chosen file with the typed
      title and category. */
  lemma ChooseFileEnablesCreate(st: CreateState, files: seq<ApiClient.File>, base: Str, succeeded: bool)
    ensures FormComplete(ChooseFile(st.form, files)) <==>
              (|files| > 0 || st.form.file.Some?) && st.form.title != "" && st.form.category != ""
    ensures |files| > 0 && st.form.title != "" && st.form.category != "" ==>
              CreatePolicy(st.(form := ChooseFile(st.form, files)), base, succeeded).sent
              == Some(ApiClient.UploadPolicy(base, files[0], st.form.title, st.form.category))
  {
  }

  // ---------------------------------------------------------------------
  // Delete trackers

  /** `handleDeleteRule`'s tracker holds both ids. */
  function DeleteRule(policyId: Str, ruleId: Str, succeeded: bool): (r: DeleteRun<(Str, Str)>)
    ensures r.during == Some((policyId, ruleId)) && r.after.None?
    ensures r.refetched <==> succeeded
  {
    RunDelete((policyId, ruleId), succeeded)
  }

  /** A rule's delete button is disabled exactly while the delete in flight
      names both its policy and its rule. */
  lemma RuleDeleteDisabledIffBothMatch(policyId: Str, ruleId: Str, succeeded: bool, p: Str, r: Str)
    ensures DeleteDisabled(DeleteRule(policyId, ruleId, succeeded).during, (p, r)) <==> p == policyId && r == ruleId
    ensures !DeleteDisabled(DeleteRule(policyId, ruleId, succeeded).after, (p, r))
  {
    OnlyDeletingDisabled((policyId, ruleId), succeeded, (p, r));
  }

  // ---------------------------------------------------------------------
  // Rule editor

  datatype EditingRule = EditingRule(policyId: Str, ruleId: Str, text: Str)

  /** The Edit button: the editor starts from the rule's current text. */
  function StartEdit(policyId: Str, rule: Handler.RuleDto): (r: Option<EditingRule>)
    ensures r == Some(EditingRule(policyId, rule.ruleId, rule.ruleText))
  {
    Some(EditingRule(policyId, rule.ruleId, rule.ruleText))
  }

  /** Typing in the editor changes only the text. */
  function EditText(editing: Option<EditingRule>, text: Str): (r: Option<EditingRule>)
    ensures r.Some? <==> editing.Some?
    ensures r.Some? ==> r.value == editing.value.(text := text)
  {
    if editing.Some? then Some(editing.value.(text := text)) else None
  }

  /** The Cancel button. */
  function CancelEdit(editing: Option<EditingRule>): (r: Option<EditingRule>)
    ensures r.None?
  {
    None
  }

  /** The state after a Save click, the update it sent and whether the list
      was refetched. */
  datatype UpdateRun = UpdateRun(editing: Option<EditingRule>, sent: Option<ApiClient.Call>, refetched: bool)

  /** `handleUpdateRule`: sends only the edited text for the edited rule's
      ids; the editor closes on success and stays open on failure. */
  function UpdateRule(editing: Option<EditingRule>, base: Str, succeeded: bool): (r: UpdateRun)
    ensures editing.None? ==> r == UpdateRun(None, None, false)
    ensures editing.Some? ==>
              r.sent == Some(ApiClient.UpdateRule(base, editing.value.policyId, editing.value.ruleId,
                                                  ApiClient.RuleData(None, Some(editing.value.text), None, None)))
    ensures editing.Some? ==> (r.refetched <==> succeeded)
    ensures editing.Some? && succeeded ==> r.editing.None?
    ensures editing.Some? && !succeeded ==> r.editing == editing
  {
    match editing
    case None => UpdateRun(None, None, false)
    case Some(e) =>
      var call := ApiClient.UpdateRule(base, e.policyId, e.ruleId, ApiClient.RuleData(None, Some(e.text), None, None));
      UpdateRun(if succeeded then None else editing, Some(call), succeeded)
  }

  /** Edit, type, Save: the update sent names the clicked rule under its
      policy and carries the typed text (the rule's own text when nothing
      was typed); after Cancel, Save sends nothing. */
  lemma EditThenSave(policyId: Str, rule: Handler.RuleDto, typed: Str, base: Str, succeeded: bool)
    ensures UpdateRule(EditText(StartEdit(policyId, rule), typed), base, succeeded).sent
            == Some(ApiClient.UpdateRule(base, policyId, rule.ruleId, ApiClient.RuleData(None, Some(typed), None, None)))
    ensures UpdateRule(StartEdit(policyId, rule), base, succeeded).sent
            == Some(ApiClient.UpdateRule(base, policyId, rule.ruleId, ApiClient.RuleData(None, Some(rule.ruleText), None, None)))
    ensures UpdateRule(CancelEdit(EditText(StartEdit(policyId, rule), typed)), base, succeeded).sent.None?
  {
  }

  /** The fields of the update request body that the server binds. */
  function BoundBody(d: ApiClient.RuleData): Handler.UpdateRuleBody {
    Handler.UpdateRuleBody(d.title, d.category, d.ruleText)
  }

  /** The server turns a Save into an update of the rule text alone, to the
      text in the editor. */
  lemma SaveUpdatesOnlyText(e: EditingRule, base: Str, succeeded: bool)
    ensures UpdateRule(Some(e), base, succeeded).sent.value.init.body.JsonBody?
    ensures Handler.UpdateMap(BoundBody(UpdateRule(Some(e), base, succeeded).sent.value.init.body.data))
            == map["rule_text" := e.text]
  {
    var m := Handler.UpdateMap(BoundBody(ApiClient.RuleData(None, Some(e.text), None, None)));
    assert m.Keys == {"rule_text"};
  }

  /** As written: a rule shows the editor whenever its rule id equals the
      edited rule's id, whatever policy either belongs to. */
  predicate EditorOpenAsWritten(editing: Option<EditingRule>, policyId: Str, rule: Handler.RuleDto) {
    editing.Some? && editing.value.ruleId == rule.ruleId
  }

  /** Rule ids are the extraction model's own labels, so two policies can
      both hold a rule "R1"; editing one opens the editor under both. */
  lemma EditorOpensInOtherPolicy()
    ensures var editing := StartEdit("policy-a", Handler.RuleDto("R1", "Encrypt data at rest"));
            EditorOpenAsWritten(editing, "policy-a", Handler.RuleDto("R1", "Encrypt data at rest"))
            && EditorOpenAsWritten(editing, "policy-b", Handler.RuleDto("R1", "Log every access"))
            && !EditorOpen(editing, "policy-b", Handler.RuleDto("R1", "Log every access"))
  {
  }

  /** Corrected: the editor belongs to the rule of the policy being edited
      only. */
  predicate EditorOpen(editing: Option<EditingRule>, policyId: Str, rule: Handler.RuleDto) {
    editing.Some? && editing.value.policyId == policyId && editing.value.ruleId == rule.ruleId
  }

  /** With the corrected key, starting an edit opens the editor exactly on
      the rule clicked, and a rule of the same id under another policy stays
      closed. */
  lemma EditorOpensOnlyClickedRule(policyId: Str, rule: Handler.RuleDto, otherPolicy: Str, other: Handler.RuleDto)
    ensures EditorOpen(StartEdit(policyId, rule), policyId, rule)
    ensures EditorOpen(StartEdit(policyId, rule), otherPolicy, other) <==>
              otherPolicy == policyId && other.ruleId == rule.ruleId
  {
  }
}
