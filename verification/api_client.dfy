/** The frontend's HTTP client (frontend/lib/api.ts): endpoint URLs, the
    request each `ApiClient` method issues, and how a response settles the
    returned promise. `fetch` itself is outside the model: a call is
    described by its URL and request init, and its outcome is a parameter. */
module ApiClient {
  import opened Wrappers
  import opened Text
  import Routes
  import Handler

  // ---------------------------------------------------------------------
  // URLs

  const DefaultBaseUrl := "http://localhost:3000"

  /** `NEXT_PUBLIC_API_BASE_URL || "http://localhost:3000"`: an unset or
      empty variable falls back to the default. */
  function BaseUrl(env: Option<Str>): (r: Str)
    ensures env.Some? && env.value != "" ==> r == env.value
    ensures env.None? || env.value == "" ==> r == DefaultBaseUrl
  {
    if env.Some? && Truthy(env.value) then env.value else DefaultBaseUrl
  }

  datatype Endpoint =
    | Health | DocumentEndpoint | PolicyEndpoint | PoliciesEndpoint | DocumentsEndpoint
    | DeleteDocumentEndpoint(id: Str) | DeletePolicyEndpoint(id: Str)
    | DeleteRuleEndpoint(policyId: Str, ruleId: Str) | UpdateRuleEndpoint(policyId: Str, ruleId: Str)

  /** `API_ENDPOINTS`: the path after `/api/v1`, ids interpolated verbatim. */
  function RoutePath(e: Endpoint): Str {
    match e
    case Health => "/health"
    case DocumentEndpoint => "/document"
    case PolicyEndpoint => "/policy"
    case PoliciesEndpoint => "/policies"
    case DocumentsEndpoint => "/documents"
    case DeleteDocumentEndpoint(id) => "/document/" + id
    case DeletePolicyEndpoint(id) => "/policy/" + id
    case DeleteRuleEndpoint(p, r) => "/policy/" + p + "/rule/" + r
    case UpdateRuleEndpoint(p, r) => "/policy/" + p + "/rule/" + r
  }

  function Url(base: Str, e: Endpoint): Str { base + "/api/v1" + RoutePath(e) }

  /** The two rule endpoints build the same URL. */
  lemma RuleUrlsCoincide(base: Str, p: Str, r: Str)
    ensures Url(base, DeleteRuleEndpoint(p, r)) == Url(base, UpdateRuleEndpoint(p, r))
  {
  }

  /** A path written as its segments, each preceded by '/'. */
  function PathOf(segments: seq<Str>): Str {
    if |segments| == 0 then "" else "/" + segments[0] + PathOf(segments[1..])
  }

  /** The segments of each endpoint's path below `/api/v1`. */
  function Tail(e: Endpoint): seq<Str> {
    match e
    case Health => ["health"]
    case DocumentEndpoint => ["document"]
    case PolicyEndpoint => ["policy"]
    case PoliciesEndpoint => ["policies"]
    case DocumentsEndpoint => ["documents"]
    case DeleteDocumentEndpoint(id) => ["document", id]
    case DeletePolicyEndpoint(id) => ["policy", id]
    case DeleteRuleEndpoint(p, r) => ["policy", p, "rule", r]
    case UpdateRuleEndpoint(p, r) => ["policy", p, "rule", r]
  }

  /** The segments of each endpoint's path, as the router sees them. */
  function Segments(e: Endpoint): seq<Str> { ["api", "v1"] + Tail(e) }

  /** A '/'-prefixed path is the '/'-join of its segments after an empty
      first piece. */
  lemma {:induction false} PathOfIsJoin(segments: seq<Str>)
    requires |segments| >= 1
    ensures PathOf(segments) == Join([""] + segments, '/')
  {
    if |segments| == 1 {
      assert PathOf(segments) == "/" + segments[0];
    } else {
      PathOfIsJoin(segments[1..]);
      assert ([""] + segments)[1..] == segments;
      assert ([""] + segments[1..])[1..] == segments[1..];
    }
  }

  /** The path of concatenated segment lists is the concatenated paths. */
  lemma {:induction false} PathOfAppend(a: seq<Str>, b: seq<Str>)
    ensures PathOf(a + b) == PathOf(a) + PathOf(b)
  {
    if |a| == 0 {
      assert a + b == b;
    } else {
      PathOfAppend(a[1..], b);
      assert (a + b)[0] == a[0] && (a + b)[1..] == a[1..] + b;
      calc {
        PathOf(a + b);
        ("/" + a[0]) + PathOf(a[1..] + b);
        ("/" + a[0]) + (PathOf(a[1..]) + PathOf(b));
        { StrAssoc("/" + a[0], PathOf(a[1..]), PathOf(b)); }
        ("/" + a[0] + PathOf(a[1..])) + PathOf(b);
      }
    }
  }

  lemma StrAssoc(x: Str, y: Str, z: Str)
    ensures x + (y + z) == (x + y) + z
  {
  }

  lemma PathOfOne(x: Str)
    ensures PathOf([x]) == "/" + x
  {
    assert [x][1..] == [];
  }

  lemma PathOfTwo(x: Str, y: Str)
    ensures PathOf([x, y]) == "/" + x + "/" + y
  {
    assert [x, y][1..] == [y];
    PathOfOne(y);
    assert "/" + x + ("/" + y) == "/" + x + "/" + y;
  }

  lemma TailPathFixed(e: Endpoint)
    requires e.Health? || e.DocumentEndpoint? || e.PolicyEndpoint? || e.PoliciesEndpoint? || e.DocumentsEndpoint?
    ensures PathOf(Tail(e)) == RoutePath(e)
  {
    assert |Tail(e)| == 1;
    PathOfOne(Tail(e)[0]);
  }

  lemma TailPathById(e: Endpoint)
    requires e.DeleteDocumentEndpoint? || e.DeletePolicyEndpoint?
    ensures PathOf(Tail(e)) == RoutePath(e)
  {
    var x := if e.DeleteDocumentEndpoint? then "document" else "policy";
    assert Tail(e) == [x, e.id];
    PathOfTwo(x, e.id);
    assert "/" + x + "/" + e.id == RoutePath(e);
  }

  /** The segments below `/api/v1` spell the endpoint's route path. */
  lemma TailPath(e: Endpoint)
    ensures PathOf(Tail(e)) == RoutePath(e)
  {
    if e.DeleteRuleEndpoint? || e.UpdateRuleEndpoint? {
      RulePath(e.policyId, e.ruleId);
    } else if e.DeleteDocumentEndpoint? || e.DeletePolicyEndpoint? {
      TailPathById(e);
    } else {
      TailPathFixed(e);
    }
  }

  lemma RulePath(p: Str, r: Str)
    ensures PathOf(["policy", p, "rule", r]) == "/policy/" + p + "/rule/" + r
  {
    PathOfOne("policy");
    PathOfOne(p);
    PathOfOne("rule");
    PathOfOne(r);
    PathOfAppend(["policy"], [p]);
    PathOfAppend(["rule"], [r]);
    PathOfAppend(["policy", p], ["rule", r]);
    assert ["policy"] + [p] == ["policy", p];
    assert ["rule"] + [r] == ["rule", r];
    assert ["policy", p] + ["rule", r] == ["policy", p, "rule", r];
  }

  /** Every URL is the base followed by the endpoint's segments. */
  lemma UrlSegments(base: Str, e: Endpoint)
    ensures Url(base, e) == base + PathOf(Segments(e))
  {
    PathOfAppend(["api", "v1"], Tail(e));
    PathOfAppend(["api"], ["v1"]);
    assert ["api"] + ["v1"] == ["api", "v1"];
    PathOfOne("api");
    PathOfOne("v1");
    TailPath(e);
  }

  /** Every request goes to the configured server when the variable is set,
      and to the local default otherwise; the endpoint's path follows. */
  lemma UrlUsesConfiguredBase(env: Option<Str>, e: Endpoint)
    ensures var u := Url(BaseUrl(env), e);
            && (env.Some? && env.value != "" ==> env.value <= u)
            && (env.None? || env.value == "" ==> DefaultBaseUrl <= u)
            && u[|BaseUrl(env)|..] == PathOf(Segments(e))
  {
    UrlSegments(BaseUrl(env), e);
  }

  /** The router splits a rule URL's path back into its segments, as long as
      the ids contain no '/'. */
  lemma RuleUrlSplits(base: Str, p: Str, r: Str)
    requires '/' !in p && '/' !in r
    ensures Url(base, DeleteRuleEndpoint(p, r)) == base + PathOf(["api", "v1", "policy", p, "rule", r])
    ensures Split(PathOf(["api", "v1", "policy", p, "rule", r]), '/') == ["", "api", "v1", "policy", p, "rule", r]
  {
    var segs := ["api", "v1", "policy", p, "rule", r];
    UrlSegments(base, DeleteRuleEndpoint(p, r));
    PathOfIsJoin(segs);
    var pieces := [""] + segs;
    assert forall i :: 0 <= i < |pieces| ==> '/' !in pieces[i] by {
      assert pieces == ["", "api", "v1", "policy", p, "rule", r];
    }
    SplitJoin(pieces, '/');
  }

  // ---------------------------------------------------------------------
  // Requests

  /** A file chosen in the browser, identified by its name. */
  datatype File = File(name: Str)

  datatype FormField = FileField(name: Str, file: File) | TextField(name: Str, value: Str)

  /** `Partial<Rule>` as sent by `updateRule`; absent keys are `None`. */
  datatype RuleData = RuleData(ruleId: Option<Str>, ruleText: Option<Str>, title: Option<Str>, category: Option<Str>)

  datatype Body = NoBody | JsonBody(data: RuleData) | FormBody(fields: seq<FormField>)

  /** The caller's `RequestInit`; `headers` is `None` when not given. */
  datatype Options = Options(verb: Option<Str>, headers: Option<seq<(Str, Str)>>, body: Body)

  datatype FetchInit = FetchInit(verb: Str, headers: seq<(Str, Str)>, body: Body)

  datatype Call = Call(url: Str, init: FetchInit)

  const JsonHeaders: seq<(Str, Str)> := [("Content-Type", "application/json")]

  /** `request`: `{headers: {Content-Type, ...options.headers}, ...options}`.
      Because `options` is spread last, a caller's `headers` replaces the
      merged object, default Content-Type included. */
  function RequestInit(options: Options): (r: FetchInit)
    ensures options.headers.None? ==> r.headers == JsonHeaders
    ensures options.headers.Some? ==> r.headers == options.headers.value
    ensures r.verb == options.verb.GetOr("GET") && r.body == options.body
  {
    FetchInit(options.verb.GetOr("GET"),
              if options.headers.Some? then options.headers.value else JsonHeaders,
              options.body)
  }

  /** Supplying any headers drops the JSON content type unless the caller
      repeats it. */
  lemma CallerHeadersReplaceDefault(verb: Option<Str>, headers: seq<(Str, Str)>, body: Body)
    requires forall i :: 0 <= i < |headers| ==> headers[i].0 != "Content-Type"
    ensures forall i :: 0 <= i < |RequestInit(Options(verb, Some(headers), body)).headers| ==>
              RequestInit(Options(verb, Some(headers), body)).headers[i].0 != "Content-Type"
  {
  }

  /** `uploadRequest`: a bare POST of the form, with no headers. */
  function UploadRequest(url: Str, fields: seq<FormField>): Call {
    Call(url, FetchInit("POST", [], FormBody(fields)))
  }

  function CheckHealth(base: Str): Call {
    Call(Url(base, Health), RequestInit(Options(None, None, NoBody)))
  }

  function UploadDocument(base: Str, file: File, policyId: Str): (r: Call)
    ensures r.init.verb == "POST" && r.url == Url(base, DocumentEndpoint)
    ensures r.init.body == FormBody([FileField("file", file), TextField("policy_id", policyId)])
  {
    UploadRequest(Url(base, DocumentEndpoint), [FileField("file", file), TextField("policy_id", policyId)])
  }

  function UploadPolicy(base: Str, file: File, title: Str, category: Str): (r: Call)
    ensures r.init.verb == "POST" && r.url == Url(base, PolicyEndpoint)
    ensures r.init.body == FormBody([FileField("file", file), TextField("title", title), TextField("category", category)])
  {
    UploadRequest(Url(base, PolicyEndpoint),
                  [FileField("file", file), TextField("title", title), TextField("category", category)])
  }

  /** The query string of the listing calls. */
  function ListQuery(page: int, pageSize: int): Str {
    "page=" + IntToString(page) + "&" + "page_size=" + IntToString(pageSize)
  }

  /** `getPolicies(page = 1, pageSize = 10)`; an omitted argument is `None`. */
  function GetPolicies(base: Str, page: Option<int>, pageSize: Option<int>): (r: Call)
    ensures r.url == Url(base, PoliciesEndpoint) + "?" + ListQuery(page.GetOr(1), pageSize.GetOr(10))
    ensures r.init == FetchInit("GET", JsonHeaders, NoBody)
  {
    Call(Url(base, PoliciesEndpoint) + "?" + ListQuery(page.GetOr(1), pageSize.GetOr(10)),
         RequestInit(Options(None, None, NoBody)))
  }

  function GetDocuments(base: Str, page: Option<int>, pageSize: Option<int>): (r: Call)
    ensures r.url == Url(base, DocumentsEndpoint) + "?" + ListQuery(page.GetOr(1), pageSize.GetOr(10))
    ensures r.init == FetchInit("GET", JsonHeaders, NoBody)
  {
    Call(Url(base, DocumentsEndpoint) + "?" + ListQuery(page.GetOr(1), pageSize.GetOr(10)),
         RequestInit(Options(None, None, NoBody)))
  }

  function DeleteDocument(base: Str, id: Str): (r: Call)
    ensures r.url == base + PathOf(["api", "v1", "document", id])
    ensures r.init == FetchInit("DELETE", JsonHeaders, NoBody)
  {
    UrlSegments(base, DeleteDocumentEndpoint(id));
    Call(Url(base, DeleteDocumentEndpoint(id)), RequestInit(Options(Some("DELETE"), None, NoBody)))
  }

  function DeletePolicy(base: Str, id: Str): (r: Call)
    ensures r.url == base + PathOf(["api", "v1", "policy", id])
    ensures r.init == FetchInit("DELETE", JsonHeaders, NoBody)
  {
    UrlSegments(base, DeletePolicyEndpoint(id));
    Call(Url(base, DeletePolicyEndpoint(id)), RequestInit(Options(Some("DELETE"), None, NoBody)))
  }

  function DeleteRule(base: Str, policyId: Str, ruleId: Str): (r: Call)
    ensures r.url == base + PathOf(["api", "v1", "policy", policyId, "rule", ruleId])
    ensures r.init == FetchInit("DELETE", JsonHeaders, NoBody)
  {
    UrlSegments(base, DeleteRuleEndpoint(policyId, ruleId));
    Call(Url(base, DeleteRuleEndpoint(policyId, ruleId)), RequestInit(Options(Some("DELETE"), None, NoBody)))
  }

  function UpdateRule(base: Str, policyId: Str, ruleId: Str, data: RuleData): (r: Call)
    ensures r.url == base + PathOf(["api", "v1", "policy", policyId, "rule", ruleId])
    ensures r.init == FetchInit("PATCH", JsonHeaders, JsonBody(data))
  {
    UrlSegments(base, UpdateRuleEndpoint(policyId, ruleId));
    Call(Url(base, UpdateRuleEndpoint(policyId, ruleId)), RequestInit(Options(Some("PATCH"), None, JsonBody(data))))
  }

  // ---------------------------------------------------------------------
  // What the server makes of a request

  /** The first text value of a form field, or "" when absent (Gin's form
      binding). */
  function FormText(fields: seq<FormField>, name: Str): Str {
    if |fields| == 0 then ""
    else if fields[0].TextField? && fields[0].name == name then fields[0].value
    else FormText(fields[1..], name)
  }

  /** The name of the first file under a form key, if any. */
  function FormFile(fields: seq<FormField>, name: Str): Option<Str> {
    if |fields| == 0 then None
    else if fields[0].FileField? && fields[0].name == name then Some(fields[0].file.name)
    else FormFile(fields[1..], name)
  }

  /** The policy upload form binds on the server exactly when title and
      category are non-empty, and carries the three values through. */
  lemma UploadPolicyBinds(base: Str, file: File, title: Str, category: Str)
    ensures var fields := UploadPolicy(base, file, title, category).init.body.fields;
            var form := Handler.UploadForm(FormFile(fields, "file"), FormText(fields, "title"), FormText(fields, "category"));
            && (Handler.BindUploadPolicy(form).Some? <==> title != "" && category != "")
            && (Handler.BindUploadPolicy(form).Some? ==>
                  Handler.BindUploadPolicy(form).value.fileName == file.name
                  && Handler.BindUploadPolicy(form).value.title == title
                  && Handler.BindUploadPolicy(form).value.category == category)
  {
    var fields := UploadPolicy(base, file, title, category).init.body.fields;
    assert FormFile(fields, "file") == Some(file.name);
    assert FormText(fields[1..][1..], "category") == category;
    assert FormText(fields, "title") == title;
    assert FormText(fields, "category") == category;
  }

  /** The document upload form carries the file and the policy id. */
  lemma UploadDocumentFields(base: Str, file: File, policyId: Str)
    ensures var fields := UploadDocument(base, file, policyId).init.body.fields;
            FormFile(fields, "file") == Some(file.name) && FormText(fields, "policy_id") == policyId
  {
  }

  /** A key followed by a decimal number holds no '&'. */
  lemma KeyNumberHasNoAmpersand(key: Str, n: nat)
    requires '&' !in key
    ensures '&' !in key + NatToString(n)
  {
    var a := key + NatToString(n);
    forall i | 0 <= i < |a| ensures a[i] != '&' {
      if i >= |key| { assert a[i] == NatToString(n)[i - |key|]; }
    }
  }

  /** Two '&'-free fields joined by '&' split back into the two. */
  lemma SplitTwoFields(a: Str, b: Str)
    requires '&' !in a && '&' !in b
    ensures Split(a + "&" + b, '&') == [a, b]
  {
    SplitAfterPiece(a, b, '&');
    SplitNoSeparator(b, '&');
  }

  /** The listing query splits into its two parameters, whose decimal
      values are the page and page size asked for. */
  lemma ListQueryFields(page: nat, pageSize: nat)
    ensures ListQuery(page, pageSize) == ("page=" + NatToString(page)) + "&" + ("page_size=" + NatToString(pageSize))
  {
    var p, q := NatToString(page), NatToString(pageSize);
    assert IntToString(page) == p && IntToString(pageSize) == q;
    assert "page=" + p + "&" + "page_size=" + q == ("page=" + p) + "&" + ("page_size=" + q);
  }

  lemma DropKey(key: Str, v: Str)
    ensures (key + v)[|key|..] == v
  {
  }

  lemma ListQueryRoundTrip(page: nat, pageSize: nat)
    ensures Split(ListQuery(page, pageSize), '&') == ["page=" + NatToString(page), "page_size=" + NatToString(pageSize)]
    ensures ("page=" + NatToString(page))[5..] == NatToString(page)
    ensures ("page_size=" + NatToString(pageSize))[10..] == NatToString(pageSize)
    ensures ParseDigits(NatToString(page)) == page && ParseDigits(NatToString(pageSize)) == pageSize
  {
    var a := "page=" + NatToString(page);
    var b := "page_size=" + NatToString(pageSize);
    ListQueryFields(page, pageSize);
    KeyNumberHasNoAmpersand("page=", page);
    KeyNumberHasNoAmpersand("page_size=", pageSize);
    SplitTwoFields(a, b);
    DropKey("page=", NatToString(page));
    DropKey("page_size=", NatToString(pageSize));
    ParseNatToString(page);
    ParseNatToString(pageSize);
  }

  /** The listing the components request by default binds on the server to
      page 1 of 10. */
  lemma DefaultListingBinds(base: Str)
    ensures GetPolicies(base, None, None).url == Url(base, PoliciesEndpoint) + "?" + ListQuery(1, 10)
    ensures Handler.BindPagination(Handler.Given(1), Handler.Given(10)) == Some(Handler.Pagination(1, 10))
  {
  }

  /** The rule-delete URL reaches the server's rule-delete handler with the
      policy id bound to `:id` and the rule id to `:rule_id`. */
  lemma DeleteRuleRoutes(base: Str, p: Str, r: Str)
    requires p != "" && r != "" && '/' !in p && '/' !in r
    ensures Split(PathOf(["api", "v1", "policy", p, "rule", r]), '/')[1..] == ["api", "v1", "policy", p, "rule", r]
    ensures Routes.Resolve(Routes.Delete, ["api", "v1", "policy", p, "rule", r])
            == Some((Routes.DeleteRule, map["id" := p, "rule_id" := r]))
  {
    RuleUrlSplits(base, p, r);
    Routes.RuleRouteParams(p, r);
  }

  // ---------------------------------------------------------------------
  // Responses

  /** A thrown value: an `Error` (an `ApiError` has a rate-limit flag, a
      `TypeError` is what the engine throws), or something that is not an
      `Error`. */
  datatype Thrown =
    | PlainError(message: Str)
    | ApiError(message: Str, isRateLimit: bool)
    | TypeError(message: Str)
    | NonError

  datatype HttpReply<T> = HttpReply(status: int, json: Result<T, Thrown>)

  /** `response.ok`. */
  predicate IsOk(status: int) { 200 <= status <= 299 }

  function HttpErrorMessage(status: int): Str { "HTTP error! status: " + IntToString(status) }

  /** `request` and `uploadRequest` after `fetch`: a transport failure is
      rethrown, a non-ok status becomes an error naming the status, and an
      ok response yields its parsed body. */
  function Settle<T>(fetched: Result<HttpReply<T>, Thrown>): (r: Result<T, Thrown>)
    ensures fetched.Err? ==> r == Err(fetched.error)
    ensures fetched.Ok? && !IsOk(fetched.value.status) ==> r == Err(PlainError(HttpErrorMessage(fetched.value.status)))
    ensures fetched.Ok? && IsOk(fetched.value.status) ==> r == fetched.value.json
  {
    match fetched
    case Err(e) => Err(e)
    case Ok(reply) =>
      if !IsOk(reply.status) then Err(PlainError(HttpErrorMessage(reply.status))) else reply.json
  }

  /** The error message names the status: distinct failing statuses give
      distinct messages. */
  lemma HttpErrorNamesStatus(s1: int, s2: int)
    requires HttpErrorMessage(s1) == HttpErrorMessage(s2)
    ensures s1 == s2
  {
    var p := "HTTP error! status: ";
    assert IntToString(s1) == HttpErrorMessage(s1)[|p|..];
    assert IntToString(s2) == HttpErrorMessage(s2)[|p|..];
    IntToStringInjective(s1, s2);
  }

  /** A failed response settles into an error from which the status can be
      told: two failures that settle alike had the same status. */
  lemma SettleReportsStatus<T>(a: HttpReply<T>, b: HttpReply<T>)
    requires !IsOk(a.status) && !IsOk(b.status)
    requires Settle(Ok(a)) == Settle(Ok(b))
    ensures Settle(Ok(a)).Err? && a.status == b.status
  {
    HttpErrorNamesStatus(a.status, b.status);
  }
}
