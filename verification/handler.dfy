/** The HTTP handlers (backend/internal/handler/handler.go) and their
    transfer objects (handler_dto.go). A reply is a status code and the
    `HandlerResponse` envelope; a message is either a translation key (the
    localisation itself is outside the model) or raw text. Request binding
    is reduced to what the binding tags decide. */
module Handler {
  import opened Wrappers
  import opened Text
  import opened Entities
  import opened Seqs
  import Repository
  import Service

  // ---------------------------------------------------------------------
  // Transfer objects

  datatype Message = Localized(key: Str) | Raw(text: Str)

  datatype RuleDto = RuleDto(ruleId: Str, ruleText: Str)

  datatype PolicyDto = PolicyDto(policyId: Str, title: Str, category: Str, extension: Str,
                                 rules: seq<RuleDto>, uploadedAt: Str)

  datatype DocumentDto = DocumentDto(documentId: Str, title: Str, path: Str, extension: Str,
                                     policyTitle: Str, violations: seq<Str>, isCompliant: bool,
                                     isHumanReviewRequired: bool, compliancePercentage: int,
                                     violationPercentage: int)

  datatype Payload =
    | NoData
    | Text(text: Str)
    | Verdict(verdict: ComplianceResponse)
    | PolicyPage(policies: seq<PolicyDto>, pageSize: int, page: int, total: int)
    | DocumentPage(documents: seq<DocumentDto>, pageSize: int, page: int, total: int)

  /** `HandlerResponse`; its constructor is `NewResponse(data, message)`. */
  datatype HandlerResponse = NewResponse(data: Payload, message: Message)

  datatype Reply = Reply(status: int, body: HandlerResponse)

  /** The file extensions a policy or document may carry. */
  const Extensions: seq<Str> := [".pdf", ".doc", ".jpg", ".docx", ".txt", ".csv",
                                 ".xlsx", ".xls", ".pptx", ".ppt", ".jpeg", ".png"]

  /** Twelve distinct lower-case extensions, each starting with '.'. */
  lemma ExtensionsWellFormed()
    ensures |Extensions| == 12
    ensures forall i, j :: 0 <= i < j < |Extensions| ==> Extensions[i] != Extensions[j]
    ensures forall i :: 0 <= i < |Extensions| ==> |Extensions[i]| >= 2 && Extensions[i][0] == '.'
    ensures forall i, k :: 0 <= i < |Extensions| && 0 <= k < |Extensions[i]| ==> !IsAsciiUpper(Extensions[i][k])
  {
  }

  // ---------------------------------------------------------------------
  // Binding

  /** A query parameter as the form binder sees it. */
  datatype QueryValue = Absent | Given(n: int) | Malformed

  datatype Pagination = Pagination(page: int, pageSize: int)

  /** `PaginationRequest`: `page` defaults to 1 and must be at least 1;
      `page_size` defaults to 10 and must lie in 1..50. A value that is not
      a 64-bit integer fails to bind. */
  function BindPagination(page: QueryValue, pageSize: QueryValue): (r: Option<Pagination>)
    ensures r.Some? <==> && !page.Malformed? && !pageSize.Malformed?
                         && (page.Given? ==> Service.IsInt64(page.n) && page.n >= 1)
                         && (pageSize.Given? ==> 1 <= pageSize.n <= 50)
    ensures r.Some? ==> r.value.page == (if page.Absent? then 1 else page.n)
    ensures r.Some? ==> r.value.pageSize == (if pageSize.Absent? then 10 else pageSize.n)
    ensures r.Some? ==> 1 <= r.value.page <= Service.MaxInt64 && 1 <= r.value.pageSize <= 50
  {
    var p := match page case Absent => Some(1) case Given(n) => (if Service.IsInt64(n) then Some(n) else None)
                        case Malformed => None;
    var z := match pageSize case Absent => Some(10) case Given(n) => (if Service.IsInt64(n) then Some(n) else None)
                            case Malformed => None;
    if p.Some? && z.Some? && p.value >= 1 && 1 <= z.value <= 50 then Some(Pagination(p.value, z.value))
    else None
  }

  /** The multipart form of an upload. */
  datatype UploadForm = UploadForm(fileName: Option<Str>, title: Str, category: Str)

  /** `binding:"required"`: a file, and non-empty strings. */
  function BindUploadPolicy(form: UploadForm): (r: Option<Service.UploadPolicyRequest>)
    ensures r.Some? <==> form.fileName.Some? && form.title != "" && form.category != ""
    ensures r.Some? ==> r.value == Service.UploadPolicyRequest(form.fileName.value, form.title, form.category)
  {
    if form.fileName.Some? && form.title != "" && form.category != "" then
      Some(Service.UploadPolicyRequest(form.fileName.value, form.title, form.category))
    else None
  }

  const Invalid := Reply(400, NewResponse(NoData, Localized("request_is_invalid")))

  const Failed := Reply(500, NewResponse(NoData, Localized("an_error_occurred_while_processing_your_request")))

  // ---------------------------------------------------------------------
  // Uploads

  /** `HandleUploadPolicy`: a service failure is reported with its raw
      text. */
  function HandleUploadPolicy(s: Repository.Store, form: UploadForm, io: Service.UploadPolicyIo, now: Timestamp):
    (r: (Reply, Repository.Store))
    requires forall t :: io.extractRules(t).Ok? ==> |io.extractRules(t).value| <= |io.ruleIds|
    ensures BindUploadPolicy(form).None? ==> r == (Invalid, s)
    ensures BindUploadPolicy(form).Some? ==>
              var out := Service.UploadPolicy(s, BindUploadPolicy(form).value, io, now);
              && r.1 == out.store
              && (out.result.Err? ==> r.0 == Reply(500, NewResponse(NoData, Raw(out.result.error))))
              && (out.result.Ok? ==> r.0 == Reply(200, NewResponse(NoData, Localized("file_uploaded_successfully"))))
  {
    match BindUploadPolicy(form)
    case None => (Invalid, s)
    case Some(req) =>
      var out := Service.UploadPolicy(s, req, io, now);
      if out.result.Err? then (Reply(500, NewResponse(NoData, Raw(out.result.error))), out.store)
      else (Reply(200, NewResponse(NoData, Localized("file_uploaded_successfully"))), out.store)
  }

  /** `HandleCheckDocumentCompliance`: the verdict is returned as data. */
  function HandleCheckDocumentCompliance(s: Repository.Store, fileName: Option<Str>, policyId: Option<Uuid>,
                                         io: Service.CheckDocumentIo): (r: (Reply, Repository.Store))
    ensures fileName.None? || policyId.None? ==> r == (Invalid, s)
    ensures fileName.Some? && policyId.Some? ==>
              var out := Service.CheckDocumentCompliance(s, Service.CheckDocumentRequest(fileName.value, policyId.value), io);
              && r.1 == out.store
              && (out.result.Err? ==> r.0 == Reply(500, NewResponse(NoData, Raw(out.result.error))))
              && (out.result.Ok? ==> r.0 == Reply(200, NewResponse(Verdict(out.result.value), Localized("file_uploaded_successfully"))))
  {
    if fileName.None? || policyId.None? then (Invalid, s)
    else
      var out := Service.CheckDocumentCompliance(s, Service.CheckDocumentRequest(fileName.value, policyId.value), io);
      if out.result.Err? then (Reply(500, NewResponse(NoData, Raw(out.result.error))), out.store)
      else (Reply(200, NewResponse(Verdict(out.result.value), Localized("file_uploaded_successfully"))), out.store)
  }

  // ---------------------------------------------------------------------
  // Listings

  function RuleToDto(x: Rule): RuleDto { RuleDto(x.ruleId, x.ruleText) }

  /** A policy as listed; `formatDate` renders the creation day. */
  function PolicyToDto(p: Policy, formatDate: Timestamp -> Str): (r: PolicyDto)
    ensures r.policyId == p.id.text && r.title == p.title && r.category == p.category
    ensures r.extension == p.extension && r.uploadedAt == formatDate(p.createdAt)
    ensures |r.rules| == |p.rules|
    ensures forall j :: 0 <= j < |p.rules| ==>
              r.rules[j].ruleId == p.rules[j].ruleId && r.rules[j].ruleText == p.rules[j].ruleText
  {
    PolicyDto(p.id.text, p.title, p.category, p.extension,
              seq(|p.rules|, j requires 0 <= j < |p.rules| => RuleToDto(p.rules[j])),
              formatDate(p.createdAt))
  }

  /** A document as listed. The violation percentage is never assigned. */
  function DocumentToDto(d: Document): (r: DocumentDto)
    ensures r.documentId == d.id.text && r.title == d.title && r.path == d.path
    ensures r.extension == d.extension && r.violations == d.violations
    ensures r.isCompliant == d.isCompliant && r.isHumanReviewRequired == d.isHumanReviewRequired
    ensures r.compliancePercentage == d.compliancePercentage
    ensures r.policyTitle == d.policy.title
    ensures r.violationPercentage == 0
  {
    DocumentDto(d.id.text, d.title, d.path, d.extension, d.policy.title, d.violations,
                d.isCompliant, d.isHumanReviewRequired, d.compliancePercentage, 0)
  }

  /** The 200 reply of the policies listing for one fetched page. */
  function PolicyReply(q: Pagination, listed: (seq<Policy>, int), formatDate: Timestamp -> Str): Reply {
    var dtos := seq(|listed.0|, i requires 0 <= i < |listed.0| => PolicyToDto(listed.0[i], formatDate));
    Reply(200, NewResponse(PolicyPage(dtos, q.pageSize, q.page, listed.1),
                           Localized("documents_fetched_successfully")))
  }

  /** `HandleGetPolicies`. */
  function HandleGetPolicies(s: Repository.Store, page: QueryValue, pageSize: QueryValue,
                             queryError: Option<Str>, formatDate: Timestamp -> Str): (r: Reply)
    ensures BindPagination(page, pageSize).None? ==> r == Invalid
    ensures BindPagination(page, pageSize).Some? && queryError.Some? ==> r == Failed
    ensures r.status == 200 <==> BindPagination(page, pageSize).Some? && queryError.None?
    ensures r.status == 200 ==>
              var q := BindPagination(page, pageSize).value;
              var listed := Service.GetPolicies(s, q.page, q.pageSize, queryError).value;
              && r.body.message == Localized("documents_fetched_successfully")
              && r.body.data.PolicyPage?
              && r.body.data.page == q.page && r.body.data.pageSize == q.pageSize
              && r.body.data.total == listed.1
              && |r.body.data.policies| == |listed.0|
              && forall i :: 0 <= i < |listed.0| ==> r.body.data.policies[i] == PolicyToDto(listed.0[i], formatDate)
  {
    match BindPagination(page, pageSize)
    case None => Invalid
    case Some(q) =>
      match Service.GetPolicies(s, q.page, q.pageSize, queryError)
      case Err(_) => Failed
      case Ok(listed) => PolicyReply(q, listed, formatDate)
  }

  /** `HandleGetDocuments`. */
  function HandleGetDocuments(s: Repository.Store, page: QueryValue, pageSize: QueryValue,
                              queryError: Option<Str>): (r: Reply)
    ensures BindPagination(page, pageSize).None? ==> r == Invalid
    ensures BindPagination(page, pageSize).Some? && queryError.Some? ==> r == Failed
    ensures r.status == 200 <==> BindPagination(page, pageSize).Some? && queryError.None?
    ensures r.status == 200 ==>
              var q := BindPagination(page, pageSize).value;
              var listed := Service.GetDocuments(s, q.page, q.pageSize, queryError).value;
              && r.body.message == Localized("documents_fetched_successfully")
              && r.body.data.DocumentPage?
              && r.body.data.page == q.page && r.body.data.pageSize == q.pageSize
              && r.body.data.total == listed.1
              && |r.body.data.documents| == |listed.0|
              && forall i :: 0 <= i < |listed.0| ==> r.body.data.documents[i] == DocumentToDto(listed.0[i])
  {
    match BindPagination(page, pageSize)
    case None => Invalid
    case Some(q) =>
      match Service.GetDocuments(s, q.page, q.pageSize, queryError)
      case Err(_) => Failed
      case Ok(listed) =>
        var dtos := seq(|listed.0|, i requires 0 <= i < |listed.0| => DocumentToDto(listed.0[i]));
        Reply(200, NewResponse(DocumentPage(dtos, q.pageSize, q.page, listed.1),
                               Localized("documents_fetched_successfully")))
  }

  /** `HandleGetPolicies` as written: the page comes from the service's
      64-bit offset. While the offset fits it is the corrected reply. */
  function HandleGetPoliciesAsWritten(s: Repository.Store, page: QueryValue, pageSize: QueryValue,
                                      queryError: Option<Str>, formatDate: Timestamp -> Str): (r: Reply)
    ensures BindPagination(page, pageSize).None? ==> r == Invalid
    ensures BindPagination(page, pageSize).Some? && queryError.Some? ==> r == Failed
    ensures r.status == 200 <==> BindPagination(page, pageSize).Some? && queryError.None?
    ensures r.status == 200 ==> r.body.data.PolicyPage? && r.body.data.total == |s.policies|
    ensures BindPagination(page, pageSize).Some? &&
            (BindPagination(page, pageSize).value.page - 1) * BindPagination(page, pageSize).value.pageSize
              <= Service.MaxInt64 ==>
              r == HandleGetPolicies(s, page, pageSize, queryError, formatDate)
  {
    match BindPagination(page, pageSize)
    case None => Invalid
    case Some(q) =>
      match Service.GetPoliciesAsWritten(s, q.page, q.pageSize, queryError)
      case Err(_) => Failed
      case Ok(listed) => PolicyReply(q, listed, formatDate)
  }

  /** Each listed policy shows the rules stored under its key, in order:
      the i-th entry of the reply is the i-th policy of the window the
      offset as written selects. */
  lemma ListedPolicyShowsItsRules(s: Repository.Store, page: QueryValue, pageSize: QueryValue,
                                  formatDate: Timestamp -> Str, i: int)
    requires HandleGetPoliciesAsWritten(s, page, pageSize, None, formatDate).status == 200
    requires 0 <= i < |HandleGetPoliciesAsWritten(s, page, pageSize, None, formatDate).body.data.policies|
    ensures var q := BindPagination(page, pageSize).value;
            var w := Window(s.policies, Service.OffsetAsWritten(q.page, q.pageSize), q.pageSize);
            var dto := HandleGetPoliciesAsWritten(s, page, pageSize, None, formatDate).body.data.policies[i];
            var stored := Repository.RulesOf(s.rules, w[i].id);
            && i < |w|
            && dto.policyId == w[i].id.text && dto.title == w[i].title && dto.category == w[i].category
            && |dto.rules| == |stored|
            && forall j :: 0 <= j < |stored| ==>
                 dto.rules[j].ruleId == stored[j].ruleId && dto.rules[j].ruleText == stored[j].ruleText
  {
  }

  /** On a huge page number the offset as written wraps, and the policy on
      the first page is listed; the corrected reply lists nothing. */
  lemma HugePageListsFirstPolicy(p: Policy, formatDate: Timestamp -> Str)
    ensures var s := Repository.Store([p], [], []);
            && HandleGetPoliciesAsWritten(s, Given(184467440737095518), Given(50), None, formatDate).body.data.policies
               == [PolicyToDto(Repository.WithRules(s, p), formatDate)]
            && HandleGetPolicies(s, Given(184467440737095518), Given(50), None, formatDate).body.data.policies == []
  {
    var s := Repository.Store([p], [], []);
    Service.OffsetWraps();
    assert Window(s.policies, Service.OffsetAsWritten(184467440737095518, 50), 50) == [p];
  }

  /** `HandleGetDocuments` as written: the 64-bit offset and no preloaded
      policy. While the offset fits, each listed document is the corrected
      reply's entry with the policy title of the stored row. */
  function HandleGetDocumentsAsWritten(s: Repository.Store, page: QueryValue, pageSize: QueryValue,
                                       queryError: Option<Str>): (r: Reply)
    ensures BindPagination(page, pageSize).None? ==> r == Invalid
    ensures BindPagination(page, pageSize).Some? && queryError.Some? ==> r == Failed
    ensures r.status == 200 <==> BindPagination(page, pageSize).Some? && queryError.None?
    ensures r.status == 200 ==> r.body.data.DocumentPage? && r.body.data.total == |s.documents|
    ensures r.status == 200 ==>
              var q := BindPagination(page, pageSize).value;
              var w := Window(s.documents, Service.OffsetAsWritten(q.page, q.pageSize), q.pageSize);
              && |r.body.data.documents| == |w|
              && forall i :: 0 <= i < |w| ==> r.body.data.documents[i].policyTitle == w[i].policy.title
    ensures r.status == 200 &&
            (BindPagination(page, pageSize).value.page - 1) * BindPagination(page, pageSize).value.pageSize
              <= Service.MaxInt64 ==>
              var fixed := HandleGetDocuments(s, page, pageSize, queryError).body.data.documents;
              && |fixed| == |r.body.data.documents|
              && forall i :: 0 <= i < |fixed| ==>
                   fixed[i] == r.body.data.documents[i].(policyTitle := fixed[i].policyTitle)
  {
    match BindPagination(page, pageSize)
    case None => Invalid
    case Some(q) =>
      match Service.GetDocumentsAsWritten(s, q.page, q.pageSize, queryError)
      case Err(_) => Failed
      case Ok(listed) =>
        var dtos := seq(|listed.0|, i requires 0 <= i < |listed.0| => DocumentToDto(listed.0[i]));
        Reply(200, NewResponse(DocumentPage(dtos, q.pageSize, q.page, listed.1),
                               Localized("documents_fetched_successfully")))
  }

  /** Documents are stored without their policy, so as written every
      listed document shows an empty policy title. */
  lemma ListedAsWrittenWithoutTitle(s: Repository.Store, page: QueryValue, pageSize: QueryValue)
    requires forall k :: 0 <= k < |s.documents| ==> s.documents[k].policy == ZeroPolicy
    requires HandleGetDocumentsAsWritten(s, page, pageSize, None).status == 200
    ensures forall i :: 0 <= i < |HandleGetDocumentsAsWritten(s, page, pageSize, None).body.data.documents| ==>
              HandleGetDocumentsAsWritten(s, page, pageSize, None).body.data.documents[i].policyTitle == ""
  {
    var q := BindPagination(page, pageSize).value;
    var w := Window(s.documents, Service.OffsetAsWritten(q.page, q.pageSize), q.pageSize);
    forall i | 0 <= i < |w| ensures w[i].policy == ZeroPolicy {
      WindowMembers(s.documents, Service.OffsetAsWritten(q.page, q.pageSize), q.pageSize, i);
    }
  }

  /** A listed document names the title of the policy it was checked
      against. */
  lemma ListedDocumentPolicyTitle(s: Repository.Store, page: QueryValue, pageSize: QueryValue, i: int)
    requires HandleGetDocuments(s, page, pageSize, None).status == 200
    requires 0 <= i < |HandleGetDocuments(s, page, pageSize, None).body.data.documents|
    ensures var q := BindPagination(page, pageSize).value;
            var d := Service.PageOf(s.documents, q.page, q.pageSize)[i];
            var dto := HandleGetDocuments(s, page, pageSize, None).body.data.documents[i];
            && dto.documentId == d.id.text
            && dto.policyTitle == Repository.PolicyOf(s, d).title
            && ((exists k :: 0 <= k < |s.policies| && s.policies[k].id == d.policyId) ==>
                  exists k :: 0 <= k < |s.policies| && s.policies[k].id == d.policyId
                              && s.policies[k].title == dto.policyTitle)
  {
    var q := BindPagination(page, pageSize).value;
    var d := Service.PageOf(s.documents, q.page, q.pageSize)[i];
    var p := Repository.PolicyOf(s, d);
    if exists k :: 0 <= k < |s.policies| && s.policies[k].id == d.policyId {
      var k := Repository.FirstPolicyIndex(s.policies, d.policyId);
      assert s.policies[k] == p;
    }
  }

  /** Without the preload, a document stored as a check stores it is
      listed with an empty policy title, where the corrected listing shows
      the title of the policy it was checked against. */
  lemma DocumentListedWithoutPolicyTitle(p: Policy, d: Document)
    requires d.policyId == p.id && d.policy == ZeroPolicy
    ensures var s := Repository.Store([p], [], [d]);
            && |HandleGetDocumentsAsWritten(s, Absent, Absent, None).body.data.documents| == 1
            && HandleGetDocumentsAsWritten(s, Absent, Absent, None).body.data.documents[0].policyTitle == ""
            && |HandleGetDocuments(s, Absent, Absent, None).body.data.documents| == 1
            && HandleGetDocuments(s, Absent, Absent, None).body.data.documents[0].policyTitle == p.title
  {
    var s := Repository.Store([p], [], [d]);
    assert BindPagination(Absent, Absent) == Some(Pagination(1, 10));
    assert Service.OffsetAsWritten(1, 10) == 0;
    assert Window(s.documents, 0, 10) == [d];
    ListedAsWrittenWithoutTitle(s, Absent, Absent);
    assert Service.PageOf(s.documents, 1, 10) == [d];
    ListedDocumentPolicyTitle(s, Absent, Absent, 0);
    assert Repository.FirstPolicyIndex(s.policies, p.id) == 0;
  }

  // ---------------------------------------------------------------------
  // Deletes

  /** The three deletes share one shape: a database failure gives the
      generic error, anything else the success message. */
  function DeleteReply(result: Result<(), Str>, successKey: Str): (r: Reply)
    ensures result.Err? ==> r == Failed
    ensures result.Ok? ==> r == Reply(200, NewResponse(NoData, Localized(successKey)))
  {
    if result.Err? then Failed else Reply(200, NewResponse(NoData, Localized(successKey)))
  }

  function HandleDeleteDocument(s: Repository.Store, id: Uuid, dbError: Option<Str>): (r: (Reply, Repository.Store))
    ensures r.0.status == 200 <==> dbError.None?
    ensures r.0.status == 200 ==> r.1 == Repository.DeleteDocument(s, id)
    ensures r.0.status != 200 ==> r == (Failed, s)
  {
    var out := Service.DeleteDocument(s, id, dbError);
    (DeleteReply(out.result, "document_deleted_successfully"), out.store)
  }

  function HandleDeletePolicy(s: Repository.Store, id: Uuid, dbError: Option<Str>): (r: (Reply, Repository.Store))
    ensures r.0.status == 200 <==> dbError.None?
    ensures r.0.status == 200 ==> r.1 == Repository.DeletePolicy(s, id)
    ensures r.0.status != 200 ==> r == (Failed, s)
  {
    var out := Service.DeletePolicy(s, id, dbError);
    (DeleteReply(out.result, "policy_deleted_successfully"), out.store)
  }

  /** `HandleDeleteRule` as written, on `/policy/:id/rule/:rule_id`: it
      passes `:id`, the policy id, as the rule's primary key and ignores
      `:rule_id`. */
  function HandleDeleteRuleAsWritten(s: Repository.Store, policyId: Uuid, ruleId: Str, dbError: Option<Str>):
    (r: (Reply, Repository.Store))
    ensures r.0.status == 200 <==> dbError.None?
    ensures r.0.status == 200 ==> r.1 == Repository.DeleteRule(s, policyId)
  {
    var out := Service.DeleteRule(s, policyId, dbError);
    (DeleteReply(out.result, "rule_deleted_successfully"), out.store)
  }

  /** A policy with one rule: deleting the rule through the route answers
      200 and leaves the rule in place. */
  lemma DeleteRuleAsWrittenKeepsRule()
    ensures var p := Policy(Uuid("p"), 0, "Privacy", "", "privacy", ".pdf", []);
            var x := Rule(Uuid("x"), p.id, "R1", "Encrypt data at rest");
            var s := Repository.Store([p], [x], []);
            var r := HandleDeleteRuleAsWritten(s, p.id, "R1", None);
            && r.0 == Reply(200, NewResponse(NoData, Localized("rule_deleted_successfully")))
            && r.1.rules == [x]
  {
  }

  /** `HandleDeleteRule` keyed by both path parameters: the rules of policy
      `:id` whose rule id is `:rule_id` are removed. */
  function HandleDeleteRule(s: Repository.Store, policyId: Uuid, ruleId: Str, dbError: Option<Str>):
    (r: (Reply, Repository.Store))
    ensures r.0.status == 200 <==> dbError.None?
    ensures r.0.status == 200 ==> r.1 == Repository.DeleteRuleWhere(s, policyId, ruleId)
    ensures r.0.status != 200 ==> r == (Failed, s)
  {
    if dbError.Some? then (Failed, s)
    else (Reply(200, NewResponse(NoData, Localized("rule_deleted_successfully"))),
          Repository.DeleteRuleWhere(s, policyId, ruleId))
  }

  /** After a successful delete no rule of the policy has that rule id, and
      every other rule is kept in order. */
  lemma DeleteRuleRemovesRule(s: Repository.Store, policyId: Uuid, ruleId: Str)
    ensures var s' := HandleDeleteRule(s, policyId, ruleId, None).1;
            && (forall x :: x in s'.rules <==> x in s.rules && !Repository.Selects(x, policyId, ruleId))
            && s'.policies == s.policies && s'.documents == s.documents
  {
    Repository.DeleteRuleWhereExact(s, policyId, ruleId);
  }

  // ---------------------------------------------------------------------
  // Updating a rule

  /** The JSON body of a rule update; absent fields are `None`. */
  datatype UpdateRuleBody = UpdateRuleBody(title: Option<Str>, category: Option<Str>, ruleText: Option<Str>)

  /** The update map: a key for every field present. */
  function UpdateMap(b: UpdateRuleBody): (r: map<Str, Str>)
    ensures "title" in r <==> b.title.Some?
    ensures "category" in r <==> b.category.Some?
    ensures "rule_text" in r <==> b.ruleText.Some?
    ensures "title" in r ==> r["title"] == b.title.value
    ensures "category" in r ==> r["category"] == b.category.value
    ensures "rule_text" in r ==> r["rule_text"] == b.ruleText.value
    ensures forall k :: k in r ==> k == "title" || k == "category" || k == "rule_text"
  {
    var m0: map<Str, Str> := map[];
    var m1 := if b.title.Some? then m0["title" := b.title.value] else m0;
    var m2 := if b.category.Some? then m1["category" := b.category.value] else m1;
    if b.ruleText.Some? then m2["rule_text" := b.ruleText.value] else m2
  }

  /** The map is empty exactly when the body has no field. */
  lemma UpdateMapEmpty(b: UpdateRuleBody)
    ensures |UpdateMap(b)| == 0 <==> b.title.None? && b.category.None? && b.ruleText.None?
  {
    var m := UpdateMap(b);
    if b.title.Some? { assert "title" in m; }
    if b.category.Some? { assert "category" in m; }
    if b.ruleText.Some? { assert "rule_text" in m; }
    if |m| > 0 { var k :| k in m; }
  }

  /** Of the keys a body can carry, only `rule_text` names a column of the
      `rules` table. */
  lemma UpdateMapColumns(b: UpdateRuleBody)
    ensures (exists k :: k in UpdateMap(b) && k !in Repository.RuleColumns) <==> b.title.Some? || b.category.Some?
  {
    var m := UpdateMap(b);
    assert "title" !in Repository.RuleColumns && "category" !in Repository.RuleColumns;
    assert "rule_text" in Repository.RuleColumns;
    if b.title.Some? { assert "title" in m; }
    if b.category.Some? { assert "category" in m; }
  }

  /** `HandleUpdateRule`. `body` is `None` when the JSON does not bind and
      `policyId` is `None` when `:id` is not a UUID. */
  function HandleUpdateRule(s: Repository.Store, body: Option<UpdateRuleBody>, policyId: Option<Uuid>, ruleId: Str,
                            dbError: Option<Str>): (r: (Reply, Repository.Store))
    ensures body.None? ==> r == (Invalid, s)
    ensures body.Some? && policyId.None? ==>
              r == (Reply(400, NewResponse(NoData, Localized("policy_id_is_required"))), s)
    ensures body.Some? && policyId.Some? && ruleId == "" ==>
              r == (Reply(400, NewResponse(NoData, Localized("rule_id_is_required"))), s)
    ensures body.Some? && policyId.Some? && ruleId != "" && |UpdateMap(body.value)| == 0 ==>
              r == (Reply(400, NewResponse(NoData, Localized("no_fields_to_update"))), s)
    ensures r.0.status == 200 <==> body.Some? && policyId.Some? && ruleId != ""
                                   && body.value.ruleText.Some? && body.value.title.None? && body.value.category.None?
                                   && dbError.None?
    ensures r.0.status == 200 ==>
              && r.0.body == NewResponse(NoData, Localized("rule_updated_successfully"))
              && r.1 == Repository.UpdateRule(s, policyId.value, ruleId, UpdateMap(body.value)).value
    ensures r.0.status == 500 <==> body.Some? && policyId.Some? && ruleId != "" && |UpdateMap(body.value)| > 0
                                   && (dbError.Some? || body.value.title.Some? || body.value.category.Some?)
    ensures r.0.status == 500 ==> r == (Failed, s)
  {
    if body.None? then (Invalid, s)
    else if policyId.None? then (Reply(400, NewResponse(NoData, Localized("policy_id_is_required"))), s)
    else if ruleId == "" then (Reply(400, NewResponse(NoData, Localized("rule_id_is_required"))), s)
    else
      var updates := UpdateMap(body.value);
      UpdateMapEmpty(body.value);
      UpdateMapColumns(body.value);
      if |updates| == 0 then (Reply(400, NewResponse(NoData, Localized("no_fields_to_update"))), s)
      else
        var out := Service.UpdateRule(s, policyId.value, ruleId, updates, dbError);
        if out.result.Err? then (Failed, s)
        else (Reply(200, NewResponse(NoData, Localized("rule_updated_successfully"))), out.store)
  }

  /** An empty body is rejected before the service runs: the reply and the
      store do not depend on what the database would have answered. */
  lemma EmptyUpdateNotCalled(s: Repository.Store, policyId: Uuid, ruleId: Str, e1: Option<Str>, e2: Option<Str>)
    requires ruleId != ""
    ensures var b := UpdateRuleBody(None, None, None);
            && HandleUpdateRule(s, Some(b), Some(policyId), ruleId, e1)
               == HandleUpdateRule(s, Some(b), Some(policyId), ruleId, e2)
            && HandleUpdateRule(s, Some(b), Some(policyId), ruleId, e1).0.status == 400
  {
    UpdateMapEmpty(UpdateRuleBody(None, None, None));
  }

  /** An update with only a rule text rewrites exactly the selected rules'
      text; one naming a title or a category fails with 500 and changes
      nothing, since the `rules` table has neither column. */
  lemma UpdateRewritesSelected(s: Repository.Store, b: UpdateRuleBody, policyId: Uuid, ruleId: Str)
    requires b.ruleText.Some? && ruleId != ""
    ensures var r := HandleUpdateRule(s, Some(b), Some(policyId), ruleId, None);
            b.title.None? && b.category.None? ==>
              && r.0.status == 200
              && |r.1.rules| == |s.rules|
              && forall i :: 0 <= i < |s.rules| ==>
                   r.1.rules[i] == (if Repository.Selects(s.rules[i], policyId, ruleId)
                                    then s.rules[i].(ruleText := b.ruleText.value) else s.rules[i])
    ensures var r := HandleUpdateRule(s, Some(b), Some(policyId), ruleId, None);
            b.title.Some? || b.category.Some? ==> r == (Failed, s)
  {
    UpdateMapEmpty(b);
    UpdateMapColumns(b);
  }
}
