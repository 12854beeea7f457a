/** The policy picker (frontend/components/policy-selector.tsx): what
    becomes selected after a policy is deleted. Its form, tracker and
    editor logic is the shared one of `PolicyForms`. */
module PolicySelector {
  import opened Wrappers
  import opened Text
  import Handler

  /** `policies.find(p => p.policy_id !== deleted)`: the first listed policy
      other than the deleted one. */
  function FindOther(policies: seq<Handler.PolicyDto>, deleted: Str): (r: Option<Handler.PolicyDto>)
    ensures r.Some? ==> r.value in policies && r.value.policyId != deleted
    ensures r.None? <==> forall i :: 0 <= i < |policies| ==> policies[i].policyId == deleted
    ensures r.Some? ==>
              exists k :: (0 <= k < |policies| && policies[k] == r.value
                           && forall i :: 0 <= i < k ==> policies[i].policyId == deleted)
  {
    if |policies| == 0 then None
    else if policies[0].policyId != deleted then Some(policies[0])
    else
      var rest := FindOther(policies[1..], deleted);
      if rest.Some? then
        var k' :| 0 <= k' < |policies[1..]| && policies[1..][k'] == rest.value
                  && forall i :: 0 <= i < k' ==> policies[1..][i].policyId == deleted;
        assert policies[k' + 1] == rest.value;
        rest
      else None
  }

  /** As written: `find(...) || policies[0]`, with `undefined` as `None`. */
  function ReselectAsWritten(policies: seq<Handler.PolicyDto>, deleted: Str): (r: Option<Handler.PolicyDto>)
    ensures r.None? <==> |policies| == 0
    ensures r.Some? ==> r.value in policies
  {
    var found := FindOther(policies, deleted);
    if found.Some? then found else if |policies| > 0 then Some(policies[0]) else None
  }

  /** Corrected: the first other policy, or no selection at all. */
  function Reselect(policies: seq<Handler.PolicyDto>, deleted: Str): (r: Option<Handler.PolicyDto>)
    ensures r.Some? ==> r.value.policyId != deleted
    ensures r.None? <==> forall i :: 0 <= i < |policies| ==> policies[i].policyId == deleted
  {
    FindOther(policies, deleted)
  }

  /** The two agree whenever another policy is listed; the fallback only
      matters when every listed policy is the deleted one, and then it
      reselects the deleted policy. */
  lemma ReselectAgrees(policies: seq<Handler.PolicyDto>, deleted: Str)
    ensures (exists i :: 0 <= i < |policies| && policies[i].policyId != deleted) ==>
              ReselectAsWritten(policies, deleted) == Reselect(policies, deleted)
    ensures (forall i :: 0 <= i < |policies| ==> policies[i].policyId == deleted) && |policies| > 0 ==>
              ReselectAsWritten(policies, deleted).value.policyId == deleted
  {
  }

  /** The selection after `handleDeletePolicy`: only a successful delete of
      the selected policy moves it. */
  function AfterDeleteAsWritten(selected: Option<Handler.PolicyDto>, policies: seq<Handler.PolicyDto>,
                                deleted: Str, succeeded: bool): (r: Option<Handler.PolicyDto>)
    ensures !succeeded || selected.None? || selected.value.policyId != deleted ==> r == selected
  {
    if succeeded && selected.Some? && selected.value.policyId == deleted then ReselectAsWritten(policies, deleted)
    else selected
  }

  /** Deleting the only policy leaves that very policy selected. */
  lemma DeletedPolicyStaysSelected(p: Handler.PolicyDto)
    ensures AfterDeleteAsWritten(Some(p), [p], p.policyId, true) == Some(p)
    ensures AfterDelete(Some(p), [p], p.policyId, true) == None
  {
  }

  /** Corrected selection after a delete. */
  function AfterDelete(selected: Option<Handler.PolicyDto>, policies: seq<Handler.PolicyDto>,
                       deleted: Str, succeeded: bool): (r: Option<Handler.PolicyDto>)
    ensures !succeeded || selected.None? || selected.value.policyId != deleted ==> r == selected
  {
    if succeeded && selected.Some? && selected.value.policyId == deleted then Reselect(policies, deleted)
    else selected
  }

  /** After a successful delete the deleted policy is never selected
      (unless something else with its id was selected before). */
  lemma DeletedNeverSelected(selected: Option<Handler.PolicyDto>, policies: seq<Handler.PolicyDto>, deleted: Str)
    ensures var r := AfterDelete(selected, policies, deleted, true);
            r.Some? ==> r.value.policyId != deleted
  {
  }
}
