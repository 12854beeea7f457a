/** The persistence layer (backend/internal/repository/repository.go) as an
    in-memory database: three tables in insertion order. A stored policy
    row carries no rules and a stored document row carries the zero
    policy; associations are filled in by the queries that preload them.
    Database failures are not decided here: the service receives each
    statement's outcome as a parameter. */
module Repository {
  import opened Wrappers
  import opened Text
  import opened Entities
  import opened Seqs

  datatype Store = Store(policies: seq<Policy>, rules: seq<Rule>, documents: seq<Document>)

  const Empty := Store([], [], [])

  /** The `WHERE policy_id = id` condition. */
  function OwnedBy(id: Uuid): Rule -> bool {
    (x: Rule) => x.policyId == id
  }

  /** The rules whose `policy_id` is `id`. */
  function RulesOf(rules: seq<Rule>, id: Uuid): (r: seq<Rule>)
    ensures forall i :: 0 <= i < |r| ==> r[i].policyId == id
  {
    Filter(rules, OwnedBy(id))
  }

  /** `Preload("Rules")`: the policy with its rules attached. */
  function WithRules(s: Store, p: Policy): (r: Policy)
    ensures r.id == p.id && r.title == p.title && r.category == p.category
    ensures r.createdAt == p.createdAt && r.path == p.path && r.extension == p.extension
    ensures forall i :: 0 <= i < |r.rules| ==> r.rules[i].policyId == p.id
  {
    p.(rules := RulesOf(s.rules, p.id))
  }

  /** Index of the first policy with primary key `id`, or -1. */
  function FirstPolicyIndex(ps: seq<Policy>, id: Uuid): (r: int)
    ensures -1 <= r < |ps|
    ensures r >= 0 ==> ps[r].id == id
    ensures forall k :: 0 <= k < |ps| && (r < 0 || k < r) ==> ps[k].id != id
  {
    if |ps| == 0 then -1
    else if ps[|ps| - 1].id == id && FirstPolicyIndex(ps[..|ps| - 1], id) < 0 then |ps| - 1
    else FirstPolicyIndex(ps[..|ps| - 1], id)
  }

  /** `CreatePolicy`, `CreateRules`, `CreateDocument` once the statement
      succeeded: the rows are appended. */
  function InsertPolicy(s: Store, p: Policy): Store { s.(policies := s.policies + [p]) }

  function InsertRules(s: Store, rs: seq<Rule>): Store { s.(rules := s.rules + rs) }

  function InsertDocument(s: Store, d: Document): Store { s.(documents := s.documents + [d]) }

  /** GORM's `ErrRecordNotFound` message. */
  const RecordNotFound: Str := "record not found"

  /** `GetPolicyByID`: the first policy with this primary key, with its
      rules preloaded, or GORM's not-found error. */
  function GetPolicyById(s: Store, id: Uuid): (r: Result<Policy, Str>)
    ensures r.Ok? <==> exists k :: 0 <= k < |s.policies| && s.policies[k].id == id
    ensures r.Ok? ==> r.value.id == id && r.value.rules == RulesOf(s.rules, id)
    ensures r.Err? ==> r.error == RecordNotFound
  {
    var k := FirstPolicyIndex(s.policies, id);
    if k < 0 then Err(RecordNotFound) else Ok(WithRules(s, s.policies[k]))
  }

  /** `GetAllPolicies`: one window of policies with rules preloaded, and the
      number of stored policies. */
  function GetAllPolicies(s: Store, offset: int, limit: int): (r: (seq<Policy>, int))
    ensures r.1 == |s.policies|
    ensures |r.0| == |Window(s.policies, offset, limit)|
    ensures forall j :: 0 <= j < |r.0| ==> r.0[j] == WithRules(s, Window(s.policies, offset, limit)[j])
  {
    var w := Window(s.policies, offset, limit);
    (seq(|w|, j requires 0 <= j < |w| => WithRules(s, w[j])), |s.policies|)
  }

  /** `GetAllDocuments` as written: one window of documents and the number
      of stored documents. The policy association is not preloaded, so
      every listed document carries the policy its row carries. */
  function GetAllDocumentsAsWritten(s: Store, offset: int, limit: int): (r: (seq<Document>, int))
    ensures r.1 == |s.documents|
    ensures r.0 == Window(s.documents, offset, limit)
  {
    (Window(s.documents, offset, limit), |s.documents|)
  }

  /** The policy `Preload("Policy")` attaches to a document: the stored row
      with the document's `policy_id`, or the zero policy when none. */
  function PolicyOf(s: Store, d: Document): (r: Policy)
    ensures r == ZeroPolicy || (r in s.policies && r.id == d.policyId)
    ensures (exists k :: 0 <= k < |s.policies| && s.policies[k].id == d.policyId) ==> r.id == d.policyId
  {
    var k := FirstPolicyIndex(s.policies, d.policyId);
    if k < 0 then ZeroPolicy else s.policies[k]
  }

  /** `GetAllDocuments` with the policy association preloaded: the same
      window, each document carrying its policy. */
  function GetAllDocuments(s: Store, offset: int, limit: int): (r: (seq<Document>, int))
    ensures r.1 == |s.documents|
    ensures |r.0| == |Window(s.documents, offset, limit)|
    ensures forall j :: 0 <= j < |r.0| ==>
              r.0[j] == Window(s.documents, offset, limit)[j].(policy := PolicyOf(s, Window(s.documents, offset, limit)[j]))
  {
    var w := Window(s.documents, offset, limit);
    (seq(|w|, j requires 0 <= j < |w| => w[j].(policy := PolicyOf(s, w[j]))), |s.documents|)
  }

  /** A document just inserted is the one row of the window that starts
      where the old rows end; the preloaded listing attaches its policy. */
  lemma InsertedDocumentListed(s: Store, d: Document)
    ensures GetAllDocumentsAsWritten(InsertDocument(s, d), |s.documents|, 1).0 == [d]
    ensures GetAllDocuments(InsertDocument(s, d), |s.documents|, 1).0 == [d.(policy := PolicyOf(s, d))]
  {
    var t := InsertDocument(s, d);
    assert Window(t.documents, |s.documents|, 1) == [d];
    assert PolicyOf(t, d) == PolicyOf(s, d);
  }

  /** With distinct primary keys, the first policy with key `ps[k].id` is
      `ps[k]`. */
  lemma FirstPolicyIndexOfUnique(ps: seq<Policy>, k: int)
    requires forall a, b :: 0 <= a < b < |ps| ==> ps[a].id != ps[b].id
    requires 0 <= k < |ps|
    ensures FirstPolicyIndex(ps, ps[k].id) == k
  {
  }

  /** The listing and the lookup by key agree: when primary keys are
      distinct, every policy a page lists is what `GetPolicyByID` returns
      for its key, rules included. */
  lemma ListingAgreesWithLookup(s: Store, offset: int, limit: int, j: int)
    requires forall a, b :: 0 <= a < b < |s.policies| ==> s.policies[a].id != s.policies[b].id
    requires offset >= 0 && limit >= 0
    requires 0 <= j < |GetAllPolicies(s, offset, limit).0|
    ensures GetPolicyById(s, GetAllPolicies(s, offset, limit).0[j].id) == Ok(GetAllPolicies(s, offset, limit).0[j])
  {
    var w := Window(s.policies, offset, limit);
    assert w[j] == s.policies[offset + j];
    FirstPolicyIndexOfUnique(s.policies, offset + j);
  }

  /** `Delete(&Document{}, id)` and its siblings: remove the rows whose
      primary key is `id`; a missing key is not an error. */
  function DeleteDocument(s: Store, id: Uuid): (r: Store)
    ensures r.policies == s.policies && r.rules == s.rules
    ensures forall i :: 0 <= i < |r.documents| ==> r.documents[i].id != id
  {
    s.(documents := Filter(s.documents, (d: Document) => d.id != id))
  }

  function DeletePolicy(s: Store, id: Uuid): (r: Store)
    ensures r.rules == s.rules && r.documents == s.documents
    ensures forall i :: 0 <= i < |r.policies| ==> r.policies[i].id != id
  {
    s.(policies := Filter(s.policies, (p: Policy) => p.id != id))
  }

  function DeleteRule(s: Store, id: Uuid): (r: Store)
    ensures r.policies == s.policies && r.documents == s.documents
    ensures forall i :: 0 <= i < |r.rules| ==> r.rules[i].id != id
  {
    s.(rules := Filter(s.rules, (x: Rule) => x.id != id))
  }

  /** Deleting by primary key removes exactly the rows with that key and
      keeps the others in order. */
  lemma DeleteRuleExact(s: Store, id: Uuid)
    ensures forall x :: x in DeleteRule(s, id).rules <==> x in s.rules && x.id != id
    ensures IsSubseq(DeleteRule(s, id).rules, s.rules)
  {
    FilterMembers(s.rules, (x: Rule) => x.id != id);
  }

  lemma DeleteDocumentExact(s: Store, id: Uuid)
    ensures forall d :: d in DeleteDocument(s, id).documents <==> d in s.documents && d.id != id
    ensures IsSubseq(DeleteDocument(s, id).documents, s.documents)
  {
    FilterMembers(s.documents, (d: Document) => d.id != id);
  }

  lemma DeletePolicyExact(s: Store, id: Uuid)
    ensures forall p :: p in DeletePolicy(s, id).policies <==> p in s.policies && p.id != id
    ensures IsSubseq(DeletePolicy(s, id).policies, s.policies)
  {
    FilterMembers(s.policies, (p: Policy) => p.id != id);
  }

  /** The row a `WHERE policy_id = ? AND rule_id = ?` clause selects. */
  predicate Selects(x: Rule, policyId: Uuid, ruleId: Str) {
    x.policyId == policyId && x.ruleId == ruleId
  }

  /** The columns of the `rules` table: the base model's and the rule's
      own. */
  const RuleColumns: set<Str> := {"id", "created_at", "updated_at", "deleted_at", "policy_id", "rule_id", "rule_text"}

  /** What Postgres answers to a SET of a column the table lacks. */
  const UndefinedColumn := "ERROR: column does not exist (SQLSTATE 42703)"

  /** `UpdateRule`: `Updates(map)` on the selected rows. GORM passes a key
      that is no field of `Rule` on as a raw column, so a key naming no
      column of `rules` makes the whole statement fail and nothing
      changes; otherwise the `rule_text` key rewrites the selected rules'
      text. */
  function UpdateRule(s: Store, policyId: Uuid, ruleId: Str, updates: map<Str, Str>): (r: Result<Store, Str>)
    ensures r.Err? <==> exists k :: k in updates && k !in RuleColumns
    ensures r.Err? ==> r.error == UndefinedColumn
    ensures r.Ok? ==> r.value.policies == s.policies && r.value.documents == s.documents
    ensures r.Ok? ==> |r.value.rules| == |s.rules|
    ensures r.Ok? ==> forall i :: 0 <= i < |s.rules| ==>
              && r.value.rules[i].id == s.rules[i].id
              && r.value.rules[i].policyId == s.rules[i].policyId
              && r.value.rules[i].ruleId == s.rules[i].ruleId
              && r.value.rules[i].ruleText == (if Selects(s.rules[i], policyId, ruleId) && "rule_text" in updates
                                               then updates["rule_text"] else s.rules[i].ruleText)
  {
    if exists k :: k in updates && k !in RuleColumns then Err(UndefinedColumn)
    else
      Ok(s.(rules := seq(|s.rules|, i requires 0 <= i < |s.rules| =>
        if Selects(s.rules[i], policyId, ruleId) && "rule_text" in updates
        then s.rules[i].(ruleText := updates["rule_text"]) else s.rules[i])))
  }

  /** A rule delete keyed the way `UpdateRule` is keyed: removes the rows
      with this policy id and rule id. */
  function DeleteRuleWhere(s: Store, policyId: Uuid, ruleId: Str): (r: Store)
    ensures r.policies == s.policies && r.documents == s.documents
    ensures forall i :: 0 <= i < |r.rules| ==> !Selects(r.rules[i], policyId, ruleId)
  {
    s.(rules := Filter(s.rules, (x: Rule) => !Selects(x, policyId, ruleId)))
  }

  lemma DeleteRuleWhereExact(s: Store, policyId: Uuid, ruleId: Str)
    ensures forall x :: x in DeleteRuleWhere(s, policyId, ruleId).rules <==>
                          x in s.rules && !Selects(x, policyId, ruleId)
    ensures IsSubseq(DeleteRuleWhere(s, policyId, ruleId).rules, s.rules)
  {
    FilterMembers(s.rules, (x: Rule) => !Selects(x, policyId, ruleId));
  }

  /** A policy inserted under a fresh id, followed by its rules, is read
      back with exactly those rules. */
  lemma {:induction false} InsertThenGet(s: Store, p: Policy, rs: seq<Rule>)
    requires forall k :: 0 <= k < |s.policies| ==> s.policies[k].id != p.id
    requires forall k :: 0 <= k < |s.rules| ==> s.rules[k].policyId != p.id
    requires forall i :: 0 <= i < |rs| ==> rs[i].policyId == p.id
    ensures GetPolicyById(InsertRules(InsertPolicy(s, p), rs), p.id) == Ok(p.(rules := rs))
  {
    var s' := InsertRules(InsertPolicy(s, p), rs);
    var keep := OwnedBy(p.id);
    FilterAppend(s.rules, rs, keep);
    FilterNone(s.rules, keep);
    FilterAll(rs, keep);
    assert s'.rules == s.rules + rs;
    assert RulesOf(s'.rules, p.id) == rs;
    assert s'.policies[..|s.policies|] == s.policies;
    assert s'.policies[|s.policies|] == p;
    assert FirstPolicyIndex(s'.policies, p.id) == |s.policies|;
    assert WithRules(s', p) == p.(rules := rs);
  }
}
