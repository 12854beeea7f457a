/** The backend route table (backend/internal/handler/routes.go) and Gin's
    matching of a request path against it. A path is the sequence of its
    '/'-separated segments; a pattern segment starting with ':' binds any
    non-empty segment. */
module Routes {
  import opened Wrappers
  import opened Text

  datatype Verb = Get | Post | Delete | Patch

  datatype HandlerName =
    | GetHealth | UploadPolicy | CheckDocumentCompliance | GetDocuments | GetPolicies
    | DeleteDocument | DeletePolicy | DeleteRule | UpdateRule

  datatype Route = Route(verb: Verb, pattern: seq<Str>, handler: HandlerName)

  /** `RegisterRoutes`: every route lives under /api/v1. */
  const Table: seq<Route> := [
    Route(Get, ["api", "v1", "health"], GetHealth),
    Route(Post, ["api", "v1", "policy"], UploadPolicy),
    Route(Post, ["api", "v1", "document"], CheckDocumentCompliance),
    Route(Get, ["api", "v1", "documents"], GetDocuments),
    Route(Get, ["api", "v1", "policies"], GetPolicies),
    Route(Delete, ["api", "v1", "document", ":id"], DeleteDocument),
    Route(Delete, ["api", "v1", "policy", ":id"], DeletePolicy),
    Route(Delete, ["api", "v1", "policy", ":id", "rule", ":rule_id"], DeleteRule),
    Route(Patch, ["api", "v1", "policy", ":id", "rule", ":rule_id"], UpdateRule)
  ]

  predicate IsParam(p: Str) { |p| >= 1 && p[0] == ':' }

  /** The path parameters a pattern binds, or None when the path does not
      match it. */
  function Match(pattern: seq<Str>, path: seq<Str>): (r: Option<map<Str, Str>>)
    ensures r.Some? ==> |pattern| == |path|
    ensures r.Some? ==> forall i :: 0 <= i < |pattern| && !IsParam(pattern[i]) ==> path[i] == pattern[i]
    decreases |pattern|
  {
    if |pattern| != |path| then None
    else if |pattern| == 0 then Some(map[])
    else
      match Match(pattern[1..], path[1..])
      case None => None
      case Some(m) =>
        if IsParam(pattern[0]) then
          if path[0] == "" then None else Some(m[pattern[0][1..] := path[0]])
        else if pattern[0] == path[0] then Some(m)
        else None
  }

  /** The first route of `routes` for this verb whose pattern matches. */
  function Resolve(verb: Verb, path: seq<Str>, routes: seq<Route> := Table): Option<(HandlerName, map<Str, Str>)> {
    if |routes| == 0 then None
    else if routes[0].verb == verb && Match(routes[0].pattern, path).Some? then
      Some((routes[0].handler, Match(routes[0].pattern, path).value))
    else Resolve(verb, path, routes[1..])
  }

  /** Routes for another verb, or with a pattern of another length, never
      answer: resolution moves past them. */
  lemma {:induction false} ResolveSkips(verb: Verb, path: seq<Str>, routes: seq<Route>, k: nat)
    requires k <= |routes|
    requires forall i :: 0 <= i < k ==> routes[i].verb != verb || |routes[i].pattern| != |path|
    ensures Resolve(verb, path, routes) == Resolve(verb, path, routes[k..])
    decreases k
  {
    if k > 0 {
      ResolveSkips(verb, path, routes[1..], k - 1);
      assert routes[1..][k - 1..] == routes[k..];
    }
  }

  /** The first seven routes have at most four segments. */
  lemma ShortRoutes()
    ensures forall i :: 0 <= i < 7 ==> |Table[i].pattern| <= 4
  {
    forall i | 0 <= i < 7 ensures |Table[i].pattern| <= 4 {
      assert i == 0 || i == 1 || i == 2 || i == 3 || i == 4 || i == 5 || i == 6;
    }
  }

  lemma RuleRouteMatch(policyId: Str, ruleId: Str)
    requires policyId != "" && ruleId != ""
    ensures Match(["api", "v1", "policy", ":id", "rule", ":rule_id"], ["api", "v1", "policy", policyId, "rule", ruleId])
            == Some(map["id" := policyId, "rule_id" := ruleId])
  {
    var pattern := ["api", "v1", "policy", ":id", "rule", ":rule_id"];
    var path := ["api", "v1", "policy", policyId, "rule", ruleId];
    assert ":id"[1..] == "id";
    assert ":rule_id"[1..] == "rule_id";
    assert Match(pattern[5..], path[5..]) == Some(map["rule_id" := ruleId]);
    assert Match(pattern[4..], path[4..]) == Some(map["rule_id" := ruleId]);
    assert Match(pattern[3..], path[3..]) == Some(map["rule_id" := ruleId]["id" := policyId]);
    assert Match(pattern[2..], path[2..]) == Some(map["rule_id" := ruleId]["id" := policyId]);
    assert Match(pattern[1..], path[1..]) == Some(map["rule_id" := ruleId]["id" := policyId]);
    assert "id" != "rule_id";
    assert map["rule_id" := ruleId]["id" := policyId] == map["id" := policyId, "rule_id" := ruleId];
  }

  lemma RuleRouteDelete(policyId: Str, ruleId: Str)
    requires policyId != "" && ruleId != ""
    ensures Resolve(Delete, ["api", "v1", "policy", policyId, "rule", ruleId])
            == Some((DeleteRule, map["id" := policyId, "rule_id" := ruleId]))
  {
    var path := ["api", "v1", "policy", policyId, "rule", ruleId];
    RuleRouteMatch(policyId, ruleId);
    ShortRoutes();
    ResolveSkips(Delete, path, Table, 7);
    assert Table[7..][0] == Route(Delete, ["api", "v1", "policy", ":id", "rule", ":rule_id"], DeleteRule);
  }

  lemma RuleRoutePatch(policyId: Str, ruleId: Str)
    requires policyId != "" && ruleId != ""
    ensures Resolve(Patch, ["api", "v1", "policy", policyId, "rule", ruleId])
            == Some((UpdateRule, map["id" := policyId, "rule_id" := ruleId]))
  {
    var path := ["api", "v1", "policy", policyId, "rule", ruleId];
    RuleRouteMatch(policyId, ruleId);
    ShortRoutes();
    ResolveSkips(Patch, path, Table, 7);
    var rest := Table[7..];
    assert rest[0].verb == Delete;
    ResolveSkips(Patch, path, rest, 1);
    assert rest[1..][0] == Route(Patch, ["api", "v1", "policy", ":id", "rule", ":rule_id"], UpdateRule);
  }

  /** The path parameters are named by the pattern: under
      /policy/:id/rule/:rule_id, `id` is the policy segment. */
  lemma RuleRouteParams(policyId: Str, ruleId: Str)
    requires policyId != "" && ruleId != ""
    ensures Resolve(Delete, ["api", "v1", "policy", policyId, "rule", ruleId])
            == Some((DeleteRule, map["id" := policyId, "rule_id" := ruleId]))
    ensures Resolve(Patch, ["api", "v1", "policy", policyId, "rule", ruleId])
            == Some((UpdateRule, map["id" := policyId, "rule_id" := ruleId]))
  {
    RuleRouteDelete(policyId, ruleId);
    RuleRoutePatch(policyId, ruleId);
  }
}
