/** The persisted records of the backend (backend/internal/repository/model.go)
    and the two shapes the LLM answers with
    (backend/internal/client/llm/llm_dto.go). Only the fields that the
    modelled logic reads or writes are kept; GORM's bookkeeping timestamps
    are reduced to the creation time the policy listing shows. */
module Entities {
  import opened Text

  /** A UUID, identified with its canonical textual form (`uuid.UUID.String`). */
  datatype Uuid = Uuid(text: Str)

  /** A creation time; its calendar rendering is supplied by the caller. */
  type Timestamp = int

  datatype Rule = Rule(id: Uuid, policyId: Uuid, ruleId: Str, ruleText: Str)

  datatype Policy = Policy(id: Uuid, createdAt: Timestamp, title: Str, category: Str,
                           path: Str, extension: Str, rules: seq<Rule>)

  /** A compliance check result. `policy` is the associated policy as the
      query loaded it, or the zero policy when it was not loaded. */
  datatype Document = Document(id: Uuid, title: Str, path: Str, extension: Str,
                               violations: seq<Str>, isCompliant: bool,
                               isHumanReviewRequired: bool, compliancePercentage: int,
                               policyId: Uuid, policy: Policy)

  /** Go's zero value of a Policy struct. */
  const ZeroPolicy := Policy(Uuid("00000000-0000-0000-0000-000000000000"), 0, "", "", "", "", [])

  /** One rule as the extraction model returns it. */
  datatype ExtractedRule = ExtractedRule(ruleId: Str, ruleText: Str)

  /** The compliance verdict as the checking model returns it. */
  datatype ComplianceResponse = ComplianceResponse(isCompliant: bool, compliancePercentage: int,
                                                   violations: seq<Str>, isHumanReviewRequired: bool)
}
