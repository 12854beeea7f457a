/** The customer document upload card
    (frontend/components/document-upload.tsx): the chosen file and policy,
    the upload guard and the success sequence. The two-second delay before
    the reset is collapsed into one transition that follows success. */
module DocumentUpload {
  import opened Wrappers
  import opened Text
  import ApiClient

  datatype UploadCard = UploadCard(file: Option<ApiClient.File>, policyId: Str, success: bool)

  const Initial := UploadCard(None, "", false)

  /** The drop zone, Choose File and Start Analysis are all disabled until a
      policy is chosen. */
  predicate ControlsDisabled(st: UploadCard) { st.policyId == "" }

  /** Picking a policy in the select. */
  function ChoosePolicy(st: UploadCard, policyId: Str): (r: UploadCard)
    ensures r.policyId == policyId && r.file == st.file && r.success == st.success
  {
    st.(policyId := policyId)
  }

  /** `handleDrop` and `handleFileSelect`: the first file, if any, replaces
      the chosen one. */
  function ChooseFile(st: UploadCard, files: seq<ApiClient.File>): (r: UploadCard)
    ensures |files| > 0 ==> r == st.(file := Some(files[0]))
    ensures |files| == 0 ==> r == st
  {
    if |files| > 0 then st.(file := Some(files[0])) else st
  }

  /** `removeFile`: drops the file and the success banner, keeps the
      policy. */
  function RemoveFile(st: UploadCard): (r: UploadCard)
    ensures r.file.None? && !r.success && r.policyId == st.policyId
  {
    st.(file := None, success := false)
  }

  /** What a Start Analysis click leads to: the card right after the
      request, the request sent, the card after the delayed reset, and
      whether the parent was told. */
  datatype UploadRun = UploadRun(afterRequest: UploadCard, sent: Option<ApiClient.Call>,
                                 afterDelay: UploadCard, notified: bool)

  /** `handleUpload`. */
  function Upload(st: UploadCard, base: Str, succeeded: bool): (r: UploadRun)
    ensures r.sent.Some? <==> st.file.Some? && st.policyId != ""
    ensures r.sent.Some? ==> r.sent.value == ApiClient.UploadDocument(base, st.file.value, st.policyId)
    ensures r.notified <==> r.sent.Some? && succeeded
    ensures r.notified ==> r.afterRequest == st.(success := true) && r.afterDelay == Initial
    ensures !r.notified ==> r.afterRequest == st && r.afterDelay == st
  {
    if st.file.None? || st.policyId == "" then UploadRun(st, None, st, false)
    else
      var call := ApiClient.UploadDocument(base, st.file.value, st.policyId);
      if succeeded then UploadRun(st.(success := true), Some(call), Initial, true)
      else UploadRun(st, Some(call), st, false)
  }

  /** The request carries the chosen file and policy; disabled controls
      never send; and after a success the card is reset so that another
      click sends nothing until a new file and policy are chosen. */
  lemma UploadSequence(st: UploadCard, base: Str, succeeded: bool)
    ensures ControlsDisabled(st) ==> Upload(st, base, succeeded).sent.None?
    ensures Upload(st, base, succeeded).sent.Some? ==>
              var fields := Upload(st, base, succeeded).sent.value.init.body.fields;
              ApiClient.FormFile(fields, "file") == Some(st.file.value.name)
              && ApiClient.FormText(fields, "policy_id") == st.policyId
    ensures Upload(st, base, succeeded).notified ==>
              Upload(Upload(st, base, succeeded).afterDelay, base, succeeded).sent.None?
  {
    if st.file.Some? && st.policyId != "" {
      ApiClient.UploadDocumentFields(base, st.file.value, st.policyId);
    }
  }

  /** Choosing a policy and then a file, in either order, enables Start
      Analysis, and the upload it sends carries exactly those two; after
      Remove nothing is sent. */
  lemma ChooseEnablesUpload(st: UploadCard, policyId: Str, files: seq<ApiClient.File>, base: Str, succeeded: bool)
    requires policyId != "" && |files| > 0
    ensures ChooseFile(ChoosePolicy(st, policyId), files) == ChoosePolicy(ChooseFile(st, files), policyId)
    ensures !ControlsDisabled(ChooseFile(ChoosePolicy(st, policyId), files))
    ensures Upload(ChooseFile(ChoosePolicy(st, policyId), files), base, succeeded).sent
            == Some(ApiClient.UploadDocument(base, files[0], policyId))
    ensures Upload(RemoveFile(ChooseFile(ChoosePolicy(st, policyId), files)), base, succeeded).sent.None?
  {
  }

  /** Removing the file after choosing one returns to the card as it was
      before the choice, apart from the success banner. */
  lemma RemoveUndoesChoose(st: UploadCard, files: seq<ApiClient.File>)
    requires st.file.None?
    ensures RemoveFile(ChooseFile(st, files)) == st.(success := false)
  {
  }
}
