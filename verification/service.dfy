/** The business operations of backend/internal/service/service.go over
    the in-memory repository. Everything the service obtains from outside
    is a parameter: whether the uploaded file opens, what Tika extracts,
    what the language model answers, the fresh UUIDs, and the outcome of
    each database write. */
module Service {
  import opened Wrappers
  import opened Text
  import opened Entities
  import opened Seqs
  import CleanText
  import Filename
  import Repository

  // ---------------------------------------------------------------------
  // Pagination

  const MinInt64: int := -0x8000_0000_0000_0000
  const MaxInt64: int := 0x7FFF_FFFF_FFFF_FFFF

  predicate IsInt64(x: int) { MinInt64 <= x <= MaxInt64 }

  /** Two's-complement wrap-around of Go's 64-bit `int` arithmetic. */
  function WrapInt64(x: int): (r: int)
    ensures IsInt64(r)
    ensures (r - x) % 0x1_0000_0000_0000_0000 == 0
    ensures IsInt64(x) ==> r == x
  {
    (x - MinInt64) % 0x1_0000_0000_0000_0000 + MinInt64
  }

  /** The offset as written, `(page - 1) * pageSize` in 64-bit `int`. */
  function OffsetAsWritten(page: int, pageSize: int): (r: int)
    requires IsInt64(page) && IsInt64(pageSize)
    ensures IsInt64(r)
    ensures 1 <= page && 0 <= pageSize && (page - 1) * pageSize <= MaxInt64 ==> r == Offset(page, pageSize)
  {
    WrapInt64(WrapInt64(page - 1) * pageSize)
  }

  /** The number of records before page `page` (1-based) of `pageSize`
      records each. */
  function Offset(page: int, pageSize: int): (r: int)
    ensures page >= 1 && pageSize >= 0 ==> r >= 0
    ensures page >= 1 && pageSize >= 0 ==> r == (page - 1) * pageSize
  {
    (page - 1) * pageSize
  }

  /** For page sizes the handler admits, a page large enough makes the
      64-bit product wrap to a negative offset. */
  lemma OffsetWraps()
    ensures OffsetAsWritten(184467440737095518, 50) < 0
    ensures Offset(184467440737095518, 50) == 9223372036854775850
  {
  }

  /** The page `page` of `pageSize` records. */
  function PageOf<T>(xs: seq<T>, page: int, pageSize: int): (r: seq<T>)
    requires page >= 1 && pageSize >= 1
    ensures |r| <= pageSize
  {
    Window(xs, Offset(page, pageSize), pageSize)
  }

  /** Record `i` appears on page `i / pageSize + 1`, at position
      `i % pageSize`; pages tile the sequence. */
  lemma PageContains<T>(xs: seq<T>, pageSize: int, i: int)
    requires pageSize >= 1 && 0 <= i < |xs|
    ensures i % pageSize < |PageOf(xs, i / pageSize + 1, pageSize)|
    ensures PageOf(xs, i / pageSize + 1, pageSize)[i % pageSize] == xs[i]
  {
    var p := i / pageSize + 1;
    assert Offset(p, pageSize) == i / pageSize * pageSize;
    assert Offset(p, pageSize) + i % pageSize == i;
  }

  /** Position `j` of page `page` is record `(page - 1) * pageSize + j`, and
      a page is full unless it runs past the last record. */
  lemma PageAt<T>(xs: seq<T>, page: int, pageSize: int, j: int)
    requires page >= 1 && pageSize >= 1 && 0 <= j < pageSize
    ensures j < |PageOf(xs, page, pageSize)| <==> (page - 1) * pageSize + j < |xs|
    ensures j < |PageOf(xs, page, pageSize)| ==> PageOf(xs, page, pageSize)[j] == xs[(page - 1) * pageSize + j]
  {
  }

  /** A wrapped offset lists the first page again: with the offset as
      written, a huge page number shows the first records. */
  lemma WrappedPageIsFirstPage<T>(xs: seq<T>)
    requires |xs| <= MaxInt64
    ensures Window(xs, OffsetAsWritten(184467440737095518, 50), 50) == PageOf(xs, 1, 50)
    ensures PageOf(xs, 184467440737095518, 50) == []
  {
    OffsetWraps();
  }

  // ---------------------------------------------------------------------
  // Listing

  /** `GetPolicies`: one page of policies with their rules, and the total. */
  function GetPolicies(s: Repository.Store, page: int, pageSize: int, queryError: Option<Str>):
    (r: Result<(seq<Policy>, int), Str>)
    requires page >= 1 && pageSize >= 1
    ensures queryError.Some? <==> r.Err?
    ensures r.Err? ==> r.error == "getPolicies :: getAllPolicies: " + queryError.value
    ensures r.Ok? ==> r.value.1 == |s.policies| && |r.value.0| == |PageOf(s.policies, page, pageSize)|
    ensures r.Ok? ==> forall j :: 0 <= j < |r.value.0| ==>
                        r.value.0[j] == Repository.WithRules(s, PageOf(s.policies, page, pageSize)[j])
  {
    if queryError.Some? then Err("getPolicies :: getAllPolicies: " + queryError.value)
    else Ok(Repository.GetAllPolicies(s, Offset(page, pageSize), pageSize))
  }

  /** `GetDocuments`: one page of documents, each with its policy, and the
      total. */
  function GetDocuments(s: Repository.Store, page: int, pageSize: int, queryError: Option<Str>):
    (r: Result<(seq<Document>, int), Str>)
    requires page >= 1 && pageSize >= 1
    ensures queryError.Some? <==> r.Err?
    ensures r.Err? ==> r.error == "getDocuments :: getAllDocuments: " + queryError.value
    ensures r.Ok? ==> r.value.1 == |s.documents| && |r.value.0| == |PageOf(s.documents, page, pageSize)|
    ensures r.Ok? ==> forall j :: 0 <= j < |r.value.0| ==>
                        var d := PageOf(s.documents, page, pageSize)[j];
                        r.value.0[j] == d.(policy := Repository.PolicyOf(s, d))
  {
    if queryError.Some? then Err("getDocuments :: getAllDocuments: " + queryError.value)
    else Ok(Repository.GetAllDocuments(s, Offset(page, pageSize), pageSize))
  }

  /** A window starting before the first record starts at the first
      record. */
  lemma WindowBeforeStart<T>(xs: seq<T>, offset: int, limit: int)
    requires offset < 0
    ensures Window(xs, offset, limit) == Window(xs, 0, limit)
  {
  }

  /** `GetPolicies` as written: the offset is the 64-bit product. While the
      product fits it is the corrected listing; once it wraps negative,
      GORM drops the offset and the first page is listed instead. */
  function GetPoliciesAsWritten(s: Repository.Store, page: int, pageSize: int, queryError: Option<Str>):
    (r: Result<(seq<Policy>, int), Str>)
    requires 1 <= page <= MaxInt64 && 1 <= pageSize <= MaxInt64
    ensures queryError.Some? <==> r.Err?
    ensures r.Err? ==> r.error == "getPolicies :: getAllPolicies: " + queryError.value
    ensures r.Ok? ==> r.value.1 == |s.policies|
    ensures (page - 1) * pageSize <= MaxInt64 ==> r == GetPolicies(s, page, pageSize, queryError)
    ensures OffsetAsWritten(page, pageSize) < 0 ==> r == GetPolicies(s, 1, pageSize, queryError)
  {
    if queryError.Some? then Err("getPolicies :: getAllPolicies: " + queryError.value)
    else
      var offset := OffsetAsWritten(page, pageSize);
      if offset < 0 then WindowBeforeStart(s.policies, offset, pageSize); Ok(Repository.GetAllPolicies(s, offset, pageSize))
      else Ok(Repository.GetAllPolicies(s, offset, pageSize))
  }

  /** `GetDocuments` as written: the 64-bit offset, and documents listed as
      their rows are stored, without their policy. Once preloaded, each
      listed document is the corrected listing's document. */
  function GetDocumentsAsWritten(s: Repository.Store, page: int, pageSize: int, queryError: Option<Str>):
    (r: Result<(seq<Document>, int), Str>)
    requires 1 <= page <= MaxInt64 && 1 <= pageSize <= MaxInt64
    ensures queryError.Some? <==> r.Err?
    ensures r.Err? ==> r.error == "getDocuments :: getAllDocuments: " + queryError.value
    ensures r.Ok? ==> r.value.1 == |s.documents|
    ensures r.Ok? && (page - 1) * pageSize <= MaxInt64 ==> r.value.0 == PageOf(s.documents, page, pageSize)
    ensures r.Ok? && OffsetAsWritten(page, pageSize) < 0 ==> r.value.0 == PageOf(s.documents, 1, pageSize)
    ensures r.Ok? && (page - 1) * pageSize <= MaxInt64 ==>
              var fixed := GetDocuments(s, page, pageSize, queryError).value.0;
              && |fixed| == |r.value.0|
              && forall j :: 0 <= j < |fixed| ==>
                   fixed[j] == r.value.0[j].(policy := Repository.PolicyOf(s, r.value.0[j]))
  {
    if queryError.Some? then Err("getDocuments :: getAllDocuments: " + queryError.value)
    else
      var offset := OffsetAsWritten(page, pageSize);
      if offset < 0 then WindowBeforeStart(s.documents, offset, pageSize); Ok(Repository.GetAllDocumentsAsWritten(s, offset, pageSize))
      else Ok(Repository.GetAllDocumentsAsWritten(s, offset, pageSize))
  }

  // ---------------------------------------------------------------------
  // Uploading a policy

  /** The multipart form of a policy upload, reduced to what the service
      reads. */
  datatype UploadPolicyRequest = UploadPolicyRequest(fileName: Str, title: Str, category: Str)

  /** What the outside world answers during one policy upload. */
  datatype UploadPolicyIo = UploadPolicyIo(
    openError: Option<Str>,                              // req.File.Open
    extracted: Result<Str, Str>,                         // Tika
    extractRules: Str -> Result<seq<ExtractedRule>, Str>, // the language model
    policyId: Uuid,                                      // uuid.New for the policy
    ruleIds: seq<Uuid>,                                  // uuid.New for each rule
    createPolicyError: Option<Str>,
    createRulesError: Option<Str>)

  /** The result of a service operation together with the repository after it. */
  datatype Outcome<T> = Outcome(result: Result<T, Str>, store: Repository.Store)

  /** One Rule record per extracted rule, in order, owned by `policyId`. */
  function BuildRules(policyId: Uuid, extracted: seq<ExtractedRule>, ids: seq<Uuid>): (r: seq<Rule>)
    requires |ids| >= |extracted|
    ensures |r| == |extracted|
    ensures forall i :: 0 <= i < |r| ==>
              r[i] == Rule(ids[i], policyId, extracted[i].ruleId, extracted[i].ruleText)
  {
    seq(|extracted|, i requires 0 <= i < |extracted| =>
      Rule(ids[i], policyId, extracted[i].ruleId, extracted[i].ruleText))
  }

  /** The policy record an upload creates. */
  function NewPolicy(req: UploadPolicyRequest, id: Uuid, now: Timestamp): (r: Policy)
    ensures r.id == id && r.title == req.title && r.category == req.category && r.rules == []
    ensures r.path == Filename.SanitizeFilename(req.fileName).base
    ensures r.extension == Filename.SanitizeFilename(req.fileName).ext
  {
    var f := Filename.SanitizeFilename(req.fileName);
    Policy(id, now, req.title, req.category, f.base, f.ext, [])
  }

  /** GORM's `ErrEmptySlice`, returned by `Create` on an empty slice
      before any statement is sent. */
  const EmptySlice := "empty slice found"

  /** `UploadPolicy`. The rules are extracted from the cleaned text; the
      policy row is written before the rule rows, without a transaction. */
  function UploadPolicy(s: Repository.Store, req: UploadPolicyRequest, io: UploadPolicyIo, now: Timestamp):
    (r: Outcome<()>)
    requires forall t :: io.extractRules(t).Ok? ==> |io.extractRules(t).value| <= |io.ruleIds|
    // reading or extracting failed: nothing is written
    ensures io.openError.Some? ==>
              r == Outcome(Err("uploadPolicy :: open file: " + io.openError.value), s)
    ensures io.openError.None? && io.extracted.Err? ==>
              r == Outcome(Err("uploadPolicy :: extractText: " + io.extracted.error), s)
    ensures io.openError.None? && io.extracted.Ok? && io.extractRules(CleanText.CleanText(io.extracted.value)).Err? ==>
              r == Outcome(Err("uploadPolicy :: extractRules: "
                               + io.extractRules(CleanText.CleanText(io.extracted.value)).error), s)
    // the policy insert failed: nothing is written
    ensures io.openError.None? && io.extracted.Ok? && io.extractRules(CleanText.CleanText(io.extracted.value)).Ok?
            && io.createPolicyError.Some? ==>
              r == Outcome(Err("uploadPolicy :: createDocument: " + io.createPolicyError.value), s)
    // the policy row is written first
    ensures r.store != s ==> r.store.policies == s.policies + [NewPolicy(req, io.policyId, now)]
    ensures r.store != s ==> r.store.documents == s.documents
    ensures r.store != s ==> io.openError.None? && io.extracted.Ok?
                             && io.extractRules(CleanText.CleanText(io.extracted.value)).Ok?
                             && io.createPolicyError.None?
    // no rule extracted: inserting the empty slice fails, the policy row stays
    ensures io.openError.None? && io.extracted.Ok? && io.extractRules(CleanText.CleanText(io.extracted.value)).Ok?
            && |io.extractRules(CleanText.CleanText(io.extracted.value)).value| == 0 && io.createPolicyError.None? ==>
              && r.result == Err("uploadPolicy :: createRules: " + EmptySlice)
              && r.store == Repository.InsertPolicy(s, NewPolicy(req, io.policyId, now))
    // a failing rule insert keeps the policy row
    ensures io.openError.None? && io.extracted.Ok? && io.extractRules(CleanText.CleanText(io.extracted.value)).Ok?
            && |io.extractRules(CleanText.CleanText(io.extracted.value)).value| > 0
            && io.createPolicyError.None? && io.createRulesError.Some? ==>
              && r.result == Err("uploadPolicy :: createRules: " + io.createRulesError.value)
              && r.store == Repository.InsertPolicy(s, NewPolicy(req, io.policyId, now))
    // success writes one rule per extracted rule, and at least one
    ensures r.result.Ok? <==> io.openError.None? && io.extracted.Ok?
                              && io.extractRules(CleanText.CleanText(io.extracted.value)).Ok?
                              && |io.extractRules(CleanText.CleanText(io.extracted.value)).value| > 0
                              && io.createPolicyError.None? && io.createRulesError.None?
    ensures r.result.Ok? ==>
              r.store.rules == s.rules + BuildRules(io.policyId, io.extractRules(CleanText.CleanText(io.extracted.value)).value, io.ruleIds)
    ensures r.result.Err? ==> r.store.rules == s.rules
  {
    if io.openError.Some? then Outcome(Err("uploadPolicy :: open file: " + io.openError.value), s)
    else if io.extracted.Err? then Outcome(Err("uploadPolicy :: extractText: " + io.extracted.error), s)
    else
      var cleaned := CleanText.CleanText(io.extracted.value);
      match io.extractRules(cleaned)
      case Err(e) => Outcome(Err("uploadPolicy :: extractRules: " + e), s)
      case Ok(extracted) =>
        var policy := NewPolicy(req, io.policyId, now);
        if io.createPolicyError.Some? then
          Outcome(Err("uploadPolicy :: createDocument: " + io.createPolicyError.value), s)
        else
          var s1 := Repository.InsertPolicy(s, policy);
          if |extracted| == 0 then Outcome(Err("uploadPolicy :: createRules: " + EmptySlice), s1)
          else if io.createRulesError.Some? then
            Outcome(Err("uploadPolicy :: createRules: " + io.createRulesError.value), s1)
          else
            Outcome(Ok(()), Repository.InsertRules(s1, BuildRules(io.policyId, extracted, io.ruleIds)))
  }

  /** A successful upload under fresh ids is read back by `GetPolicyByID`
      with exactly the extracted rules, in order. */
  lemma UploadThenGet(s: Repository.Store, req: UploadPolicyRequest, io: UploadPolicyIo, now: Timestamp)
    requires forall t :: io.extractRules(t).Ok? ==> |io.extractRules(t).value| <= |io.ruleIds|
    requires UploadPolicy(s, req, io, now).result.Ok?
    requires forall k :: 0 <= k < |s.policies| ==> s.policies[k].id != io.policyId
    requires forall k :: 0 <= k < |s.rules| ==> s.rules[k].policyId != io.policyId
    ensures var extracted := io.extractRules(CleanText.CleanText(io.extracted.value)).value;
            Repository.GetPolicyById(UploadPolicy(s, req, io, now).store, io.policyId)
            == Ok(NewPolicy(req, io.policyId, now).(rules := BuildRules(io.policyId, extracted, io.ruleIds)))
  {
    var extracted := io.extractRules(CleanText.CleanText(io.extracted.value)).value;
    var p := NewPolicy(req, io.policyId, now);
    var built := BuildRules(io.policyId, extracted, io.ruleIds);
    assert UploadPolicy(s, req, io, now).store == Repository.InsertRules(Repository.InsertPolicy(s, p), built);
    Repository.InsertThenGet(s, p, built);
  }

  // ---------------------------------------------------------------------
  // Checking a document

  /** The multipart form of a document check. The policy id is a parsed
      UUID (the source panics on a malformed one). */
  datatype CheckDocumentRequest = CheckDocumentRequest(fileName: Str, policyId: Uuid)

  /** What the check's collaborators answer: opening the upload, Tika's
      extraction, a database failure of the policy lookup (a missing policy
      is decided by the store itself), the model's verdict, the new
      document's id and the document insert. */
  datatype CheckDocumentIo = CheckDocumentIo(
    openError: Option<Str>,
    extracted: Result<Str, Str>,
    getPolicyError: Option<Str>,
    checkCompliance: (seq<Rule>, Str) -> Result<ComplianceResponse, Str>,
    documentId: Uuid,
    createDocumentError: Option<Str>)

  /** The document record a successful check stores. */
  function NewDocument(fileName: Str, id: Uuid, policyId: Uuid, verdict: ComplianceResponse): (r: Document)
    ensures r.title == r.path == Filename.SanitizeFilename(fileName).base
    ensures r.extension == Filename.SanitizeFilename(fileName).ext
    ensures r.violations == verdict.violations && r.isCompliant == verdict.isCompliant
    ensures r.isHumanReviewRequired == verdict.isHumanReviewRequired
    ensures r.compliancePercentage == verdict.compliancePercentage
    ensures r.id == id && r.policyId == policyId && r.policy == ZeroPolicy
  {
    var f := Filename.SanitizeFilename(fileName);
    Document(id, f.base, f.base, f.ext, verdict.violations, verdict.isCompliant,
             verdict.isHumanReviewRequired, verdict.compliancePercentage, policyId, ZeroPolicy)
  }

  /** `CheckDocumentCompliance`. The model sees the policy's stored rules and
      the raw extracted text; a failing document insert is ignored. */
  function CheckDocumentCompliance(s: Repository.Store, req: CheckDocumentRequest, io: CheckDocumentIo):
    (r: Outcome<ComplianceResponse>)
    ensures io.openError.Some? ==>
              r == Outcome(Err("checkDocumentCompliance :: open file: " + io.openError.value), s)
    ensures io.openError.None? && io.extracted.Err? ==>
              r == Outcome(Err("checkDocumentCompliance :: extractText: " + io.extracted.error), s)
    ensures io.openError.None? && io.extracted.Ok? && io.getPolicyError.Some? ==>
              r == Outcome(Err("checkDocumentCompliance :: getPolicyByID: " + io.getPolicyError.value), s)
    ensures io.openError.None? && io.extracted.Ok? && io.getPolicyError.None?
            && Repository.GetPolicyById(s, req.policyId).Err? ==>
              r == Outcome(Err("checkDocumentCompliance :: getPolicyByID: " + Repository.RecordNotFound), s)
    ensures r.result.Ok? <==>
              && io.openError.None? && io.extracted.Ok? && io.getPolicyError.None?
              && Repository.GetPolicyById(s, req.policyId).Ok?
              && io.checkCompliance(Repository.RulesOf(s.rules, req.policyId), io.extracted.value).Ok?
    ensures r.result.Ok? ==>
              r.result.value == io.checkCompliance(Repository.RulesOf(s.rules, req.policyId), io.extracted.value).value
    ensures r.result.Ok? && io.createDocumentError.None? ==>
              r.store == Repository.InsertDocument(s, NewDocument(req.fileName, io.documentId, req.policyId, r.result.value))
    ensures r.result.Err? || io.createDocumentError.Some? ==> r.store == s
  {
    if io.openError.Some? then Outcome(Err("checkDocumentCompliance :: open file: " + io.openError.value), s)
    else if io.extracted.Err? then Outcome(Err("checkDocumentCompliance :: extractText: " + io.extracted.error), s)
    else if io.getPolicyError.Some? then
      Outcome(Err("checkDocumentCompliance :: getPolicyByID: " + io.getPolicyError.value), s)
    else CheckText(s, req, io, io.extracted.value)
  }

  /** The part of a check after the text is extracted and the database
      answered the lookup: find the policy,
      ask for a verdict, store the document. */
  function CheckText(s: Repository.Store, req: CheckDocumentRequest, io: CheckDocumentIo, text: Str):
    (r: Outcome<ComplianceResponse>)
    ensures Repository.GetPolicyById(s, req.policyId).Err? ==>
              r == Outcome(Err("checkDocumentCompliance :: getPolicyByID: " + Repository.RecordNotFound), s)
    ensures r.result.Ok? <==>
              Repository.GetPolicyById(s, req.policyId).Ok?
              && io.checkCompliance(Repository.RulesOf(s.rules, req.policyId), text).Ok?
    ensures r.result.Ok? ==>
              r.result.value == io.checkCompliance(Repository.RulesOf(s.rules, req.policyId), text).value
    ensures r.result.Ok? && io.createDocumentError.None? ==>
              r.store == Repository.InsertDocument(s, NewDocument(req.fileName, io.documentId, req.policyId, r.result.value))
    ensures r.result.Err? || io.createDocumentError.Some? ==> r.store == s
  {
    match Repository.GetPolicyById(s, req.policyId)
    case Err(e) => Outcome(Err("checkDocumentCompliance :: getPolicyByID: " + e), s)
    case Ok(policy) =>
      match io.checkCompliance(policy.rules, text)
      case Err(e) => Outcome(Err("checkDocumentCompliance :: chat: " + e), s)
      case Ok(verdict) => StoreVerdict(s, req.fileName, io, policy.id, verdict)
  }

  /** The tail of a successful check: the verdict is answered whether or
      not the document row could be stored. */
  function StoreVerdict(s: Repository.Store, fileName: Str, io: CheckDocumentIo, policyId: Uuid, verdict: ComplianceResponse):
    (r: Outcome<ComplianceResponse>)
    ensures r.result == Ok(verdict)
    ensures io.createDocumentError.None? ==> |r.store.documents| == |s.documents| + 1
    ensures io.createDocumentError.Some? ==> r.store == s
  {
    var doc := NewDocument(fileName, io.documentId, policyId, verdict);
    if io.createDocumentError.Some? then Outcome(Ok(verdict), s)
    else Outcome(Ok(verdict), Repository.InsertDocument(s, doc))
  }

  /** The answer does not depend on whether the document could be stored. */
  lemma CheckIgnoresStoreFailure(s: Repository.Store, req: CheckDocumentRequest, io: CheckDocumentIo, failure: Str)
    ensures CheckDocumentCompliance(s, req, io.(createDocumentError := Some(failure))).result
            == CheckDocumentCompliance(s, req, io.(createDocumentError := None)).result
  {
  }

  /** A successful check whose insert succeeds is listed afterwards: the
      page starting at the new row shows the checked document with its
      verdict. As written the listing carries no policy; preloaded, it
      carries the policy the document was checked against. */
  lemma CheckThenList(s: Repository.Store, req: CheckDocumentRequest, io: CheckDocumentIo)
    requires CheckDocumentCompliance(s, req, io).result.Ok? && io.createDocumentError.None?
    ensures var out := CheckDocumentCompliance(s, req, io);
            var verdict := out.result.value;
            var listed := Repository.GetAllDocumentsAsWritten(out.store, |s.documents|, 1).0;
            var fixed := Repository.GetAllDocuments(out.store, |s.documents|, 1).0;
            && |listed| == 1 && |fixed| == 1
            && listed[0].id == io.documentId && listed[0].policyId == req.policyId
            && listed[0].isCompliant == verdict.isCompliant && listed[0].violations == verdict.violations
            && listed[0].compliancePercentage == verdict.compliancePercentage
            && listed[0].isHumanReviewRequired == verdict.isHumanReviewRequired
            && listed[0].policy == ZeroPolicy
            && fixed[0] == listed[0].(policy := fixed[0].policy)
            && fixed[0].policy.id == req.policyId
            && fixed[0].policy.title == Repository.GetPolicyById(s, req.policyId).value.title
  {
    var out := CheckDocumentCompliance(s, req, io);
    var doc := NewDocument(req.fileName, io.documentId, req.policyId, out.result.value);
    assert out.store == Repository.InsertDocument(s, doc);
    Repository.InsertedDocumentListed(s, doc);
    var k := Repository.FirstPolicyIndex(s.policies, req.policyId);
    assert k >= 0 && Repository.PolicyOf(s, doc) == s.policies[k];
    assert Repository.GetPolicyById(s, req.policyId).value == Repository.WithRules(s, s.policies[k]);
  }

  // ---------------------------------------------------------------------
  // Deleting and updating

  /** The deletes and the update pass the parsed ids to the repository; a
      database failure comes back unchanged. */
  function DeleteDocument(s: Repository.Store, id: Uuid, dbError: Option<Str>): (r: Outcome<()>)
    ensures r.result.Err? <==> dbError.Some?
    ensures dbError.Some? ==> r == Outcome(Err(dbError.value), s)
    ensures dbError.None? ==> r.store == Repository.DeleteDocument(s, id)
  {
    if dbError.Some? then Outcome(Err(dbError.value), s) else Outcome(Ok(()), Repository.DeleteDocument(s, id))
  }

  function DeletePolicy(s: Repository.Store, id: Uuid, dbError: Option<Str>): (r: Outcome<()>)
    ensures r.result.Err? <==> dbError.Some?
    ensures dbError.Some? ==> r == Outcome(Err(dbError.value), s)
    ensures dbError.None? ==> r.store == Repository.DeletePolicy(s, id)
  {
    if dbError.Some? then Outcome(Err(dbError.value), s) else Outcome(Ok(()), Repository.DeletePolicy(s, id))
  }

  function DeleteRule(s: Repository.Store, id: Uuid, dbError: Option<Str>): (r: Outcome<()>)
    ensures r.result.Err? <==> dbError.Some?
    ensures dbError.Some? ==> r == Outcome(Err(dbError.value), s)
    ensures dbError.None? ==> r.store == Repository.DeleteRule(s, id)
  {
    if dbError.Some? then Outcome(Err(dbError.value), s) else Outcome(Ok(()), Repository.DeleteRule(s, id))
  }

  /** `UpdateRule`: `dbError` is a failure of the database itself; a
      statement naming a column the table lacks fails as well. Either way
      nothing changes. */
  function UpdateRule(s: Repository.Store, policyId: Uuid, ruleId: Str, updates: map<Str, Str>,
                      dbError: Option<Str>): (r: Outcome<()>)
    ensures r.result.Err? <==> dbError.Some? || exists k :: k in updates && k !in Repository.RuleColumns
    ensures r.result.Err? ==> r.store == s
    ensures dbError.Some? ==> r.result == Err(dbError.value)
    ensures dbError.None? && r.result.Err? ==> r.result == Err(Repository.UndefinedColumn)
    ensures r.result.Ok? ==> r.store == Repository.UpdateRule(s, policyId, ruleId, updates).value
  {
    if dbError.Some? then Outcome(Err(dbError.value), s)
    else
      match Repository.UpdateRule(s, policyId, ruleId, updates)
      case Err(e) => Outcome(Err(e), s)
      case Ok(s') => Outcome(Ok(()), s')
  }
}
