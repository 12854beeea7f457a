/** The Groq client (backend/internal/client/llm/llm.go): the prompts and
    chat requests it builds, the repair of truncated rule-extraction
    answers and the selection of the first choice of a chat response.
    HTTP transport and JSON decoding are parameters. */
module Llm {
  import opened Wrappers
  import opened Text
  import opened Entities

  /** The two fixed instruction texts sent as system messages. */
  datatype SystemPrompt = ComplianceInstructions | RuleExtractionInstructions

  datatype ChatMessage = System(prompt: SystemPrompt) | User(content: Str)

  /** The fields of a chat request that the client sets; the response
      schema is named by `schema`. */
  datatype Schema = ComplianceSchema | RulesSchema

  datatype ChatRequest = ChatRequest(model: Str, messages: seq<ChatMessage>, maxCompletionTokens: nat,
                                     stop: seq<Str>, stream: bool, schema: Schema)

  datatype LlmConfig = LlmConfig(groqApiKey: Str, llmModel: Str)

  // ---------------------------------------------------------------------
  // Prompts

  /** One written bullet: "- " + text + "\n". */
  function Bullet(text: Str): Str { "- " + text + "\n" }

  /** The bullets of `texts`, in order. */
  function Bullets(texts: seq<Str>): Str {
    if |texts| == 0 then [] else Bullet(texts[0]) + Bullets(texts[1..])
  }

  lemma {:induction false} BulletsSnoc(texts: seq<Str>, x: Str)
    ensures Bullets(texts + [x]) == Bullets(texts) + Bullet(x)
  {
    if |texts| > 0 {
      assert (texts + [x])[1..] == texts[1..] + [x];
      BulletsSnoc(texts[1..], x);
    } else {
      assert [x][1..] == [];
    }
  }

  function RuleTexts(rules: seq<Rule>): (r: seq<Str>)
    ensures |r| == |rules|
    ensures forall i :: 0 <= i < |rules| ==> r[i] == rules[i].ruleText
  {
    seq(|rules|, i requires 0 <= i < |rules| => rules[i].ruleText)
  }

  /** The user prompt of a compliance check; with no rules it is
      "Policy:\nDocument:\n- " + content + "\n". */
  function CompliancePrompt(ruleTexts: seq<Str>, content: Str): (r: Str)
    ensures ruleTexts == [] ==> r == "Policy:\nDocument:\n- " + content + "\n"
  {
    "Policy:\n" + Bullets(ruleTexts) + "Document:\n" + Bullet(content)
  }

  /** The compliance prompt written piece by piece into a buffer, the way
      the client does. */
  method WriteCompliancePrompt(rules: seq<Rule>, content: Str) returns (buf: Str)
    ensures buf == CompliancePrompt(RuleTexts(rules), content)
  {
    buf := "Policy:\n";
    var i := 0;
    while i < |rules|
      invariant 0 <= i <= |rules|
      invariant buf == "Policy:\n" + Bullets(RuleTexts(rules)[..i])
    {
      buf := buf + ("- " + rules[i].ruleText + "\n");
      BulletsSnoc(RuleTexts(rules)[..i], rules[i].ruleText);
      assert RuleTexts(rules)[..i + 1] == RuleTexts(rules)[..i] + [rules[i].ruleText];
      i := i + 1;
    }
    assert RuleTexts(rules)[..i] == RuleTexts(rules);
    buf := buf + "Document:\n";
    buf := buf + ("- " + content + "\n");
  }

  /** The user prompt of a rule extraction. */
  function ExtractRulesPrompt(content: Str): Str {
    "Policy:\n" + Bullet(content)
  }

  /** Each line followed by "\n". */
  function Lines(ls: seq<Str>): Str {
    if |ls| == 0 then [] else ls[0] + "\n" + Lines(ls[1..])
  }

  lemma {:induction false} LinesAppend(a: seq<Str>, b: seq<Str>)
    ensures Lines(a + b) == Lines(a) + Lines(b)
  {
    if |a| == 0 {
      assert a + b == b;
    } else {
      assert (a + b)[1..] == a[1..] + b;
      LinesAppend(a[1..], b);
    }
  }

  lemma {:induction false} LinesIsJoin(ls: seq<Str>)
    ensures Lines(ls) == Join(ls + [[]], '\n')
  {
    if |ls| > 0 {
      assert (ls + [[]])[1..] == ls[1..] + [[]];
      LinesIsJoin(ls[1..]);
    }
  }

  /** Every text prefixed with "- ". */
  function Dashed(texts: seq<Str>): (r: seq<Str>)
    ensures |r| == |texts|
    ensures forall i :: 0 <= i < |texts| ==> r[i] == "- " + texts[i]
  {
    seq(|texts|, i requires 0 <= i < |texts| => "- " + texts[i])
  }

  lemma {:induction false} BulletsAreLines(texts: seq<Str>)
    ensures Bullets(texts) == Lines(Dashed(texts))
  {
    if |texts| > 0 {
      BulletsAreLines(texts[1..]);
      assert Dashed(texts)[1..] == Dashed(texts[1..]);
    }
  }

  /** The lines of the compliance prompt. */
  function ComplianceLines(ruleTexts: seq<Str>, content: Str): seq<Str> {
    ["Policy:"] + Dashed(ruleTexts) + ["Document:", "- " + content]
  }

  lemma CompliancePromptIsLines(ruleTexts: seq<Str>, content: Str)
    ensures CompliancePrompt(ruleTexts, content) == Lines(ComplianceLines(ruleTexts, content))
  {
    BulletsAreLines(ruleTexts);
    LinesAppend(["Policy:"], Dashed(ruleTexts));
    LinesAppend(["Policy:"] + Dashed(ruleTexts), ["Document:", "- " + content]);
    var tail := ["Document:", "- " + content];
    assert tail[1..] == ["- " + content] && tail[1..][1..] == [];
    assert Lines(tail[1..]) == "- " + content + "\n" + Lines([]);
    assert Lines(tail) == "Document:\n" + Bullet(content);
  }

  /** Reads the rule texts back out of a compliance prompt: the lines
      between "Policy:" and "Document:", without their "- ". */
  function PromptRuleTexts(prompt: Str): seq<Str> {
    var ls := Split(prompt, '\n');
    if |ls| < 4 then []
    else
      var bullets := ls[1..|ls| - 3];
      seq(|bullets|, i requires 0 <= i < |bullets| => if |bullets[i]| >= 2 then bullets[i][2..] else bullets[i])
  }

  /** When neither the rule texts nor the document contain a line break,
      the prompt has one line per rule, in order, and the rules can be read
      back exactly. */
  lemma PromptRuleTextsRoundTrip(ruleTexts: seq<Str>, content: Str)
    requires forall i :: 0 <= i < |ruleTexts| ==> '\n' !in ruleTexts[i]
    requires '\n' !in content
    ensures Split(CompliancePrompt(ruleTexts, content), '\n') == ComplianceLines(ruleTexts, content) + [[]]
    ensures PromptRuleTexts(CompliancePrompt(ruleTexts, content)) == ruleTexts
  {
    var ls := ComplianceLines(ruleTexts, content) + [[]];
    CompliancePromptIsLines(ruleTexts, content);
    LinesIsJoin(ComplianceLines(ruleTexts, content));
    forall i | 0 <= i < |ls| ensures '\n' !in ls[i] {
      if 1 <= i <= |ruleTexts| {
        assert ls[i] == "- " + ruleTexts[i - 1];
      }
    }
    SplitJoin(ls, '\n');
    assert ls[1..|ls| - 3] == Dashed(ruleTexts);
    forall i | 0 <= i < |ruleTexts| ensures ("- " + ruleTexts[i])[2..] == ruleTexts[i] {
    }
  }

  /** The rule-extraction prompt is "Policy:" and one bullet, and the
      content can be read back from it. */
  lemma ExtractRulesPromptRoundTrip(content: Str)
    ensures ExtractRulesPrompt(content) == Lines(["Policy:", "- " + content])
    ensures ExtractRulesPrompt(content)[10..|ExtractRulesPrompt(content)| - 1] == content
  {
    var ls := ["Policy:", "- " + content];
    assert ls[1..] == ["- " + content];
    assert ls[1..][1..] == [];
    assert Lines(ls[1..]) == "- " + content + "\n";
    assert Lines(ls) == "Policy:" + "\n" + ("- " + content + "\n");
  }

  // ---------------------------------------------------------------------
  // Requests

  function ComplianceRequest(cfg: LlmConfig, rules: seq<Rule>, content: Str): (r: ChatRequest)
    ensures |r.messages| == 2 && r.messages[0].System? && r.messages[1].User?
    ensures r.messages[1].content == CompliancePrompt(RuleTexts(rules), content)
  {
    ChatRequest(cfg.llmModel,
                [System(ComplianceInstructions), User(CompliancePrompt(RuleTexts(rules), content))],
                1024, ["ERROR"], false, ComplianceSchema)
  }

  function ExtractRulesRequest(cfg: LlmConfig, content: Str): (r: ChatRequest)
    ensures |r.messages| == 2 && r.messages[0].System? && r.messages[1].User?
    ensures r.messages[1].content == ExtractRulesPrompt(content)
  {
    ChatRequest(cfg.llmModel,
                [System(RuleExtractionInstructions), User(ExtractRulesPrompt(content))],
                8192, ["___END___"], false, RulesSchema)
  }

  /** The user message of a compliance request lists the policy's rules:
      when no rule text and not the document contain a line break, the
      rule texts are read back from it one per rule, in order. */
  lemma ComplianceRequestRoundTrip(cfg: LlmConfig, rules: seq<Rule>, content: Str)
    requires forall i :: 0 <= i < |rules| ==> '\n' !in rules[i].ruleText
    requires '\n' !in content
    ensures var m := ComplianceRequest(cfg, rules, content).messages;
            && |m| == 2 && m[1].User?
            && |PromptRuleTexts(m[1].content)| == |rules|
            && forall i :: 0 <= i < |rules| ==> PromptRuleTexts(m[1].content)[i] == rules[i].ruleText
  {
    PromptRuleTextsRoundTrip(RuleTexts(rules), content);
  }

  /** The user message of a rule-extraction request carries the whole
      policy text, which is read back between "Policy:\n- " and the final
      line break. */
  lemma ExtractRulesRequestRoundTrip(cfg: LlmConfig, content: Str)
    ensures var m := ExtractRulesRequest(cfg, content).messages;
            && |m| == 2 && m[1].User?
            && |m[1].content| == |content| + 11
            && m[1].content[10..|m[1].content| - 1] == content
  {
    ExtractRulesPromptRoundTrip(content);
  }

  // ---------------------------------------------------------------------
  // Transport

  const GroqUrl := "https://api.groq.com/openai/v1/chat/completions"

  /** The HTTP request `CallGroqAPI` sends: a POST of the JSON-encoded chat
      request with a bearer token. */
  datatype HttpRequest = HttpRequest(verb: Str, url: Str, headers: seq<(Str, Str)>, payload: ChatRequest)

  datatype HttpResponse = HttpResponse(status: int, body: Str)

  function GroqHttpRequest(cfg: LlmConfig, payload: ChatRequest): HttpRequest {
    HttpRequest("POST", GroqUrl,
                [("Content-Type", "application/json"), ("Authorization", "Bearer " + cfg.groqApiKey)],
                payload)
  }

  const CallPrefix := "callGroqAPI :: "

  /** An error of `CallGroqAPI`, tagged with the function's name. */
  function CallFailure(msg: Str): (r: Result<Str, Str>)
    ensures r.Err? && CallPrefix <= r.error
  {
    assert (CallPrefix + msg)[..|CallPrefix|] == CallPrefix;
    Err(CallPrefix + msg)
  }

  /** `CallGroqAPI`: `send` performs the HTTP exchange and `decodeChoices`
      decodes a response body into the contents of its choices. The
      answer is the content of the first choice. */
  function CallGroqApi(cfg: LlmConfig, payload: ChatRequest,
                       send: HttpRequest -> Result<HttpResponse, Str>,
                       decodeChoices: Str -> Result<seq<Str>, Str>): (r: Result<Str, Str>)
    ensures r.Ok? <==> && send(GroqHttpRequest(cfg, payload)).Ok?
                       && send(GroqHttpRequest(cfg, payload)).value.status == 200
                       && decodeChoices(send(GroqHttpRequest(cfg, payload)).value.body).Ok?
                       && |decodeChoices(send(GroqHttpRequest(cfg, payload)).value.body).value| > 0
    ensures r.Ok? ==> r.value == decodeChoices(send(GroqHttpRequest(cfg, payload)).value.body).value[0]
    ensures r.Err? ==> CallPrefix <= r.error
  {
    match send(GroqHttpRequest(cfg, payload))
    case Err(e) => CallFailure("error calling chat API: " + e)
    case Ok(resp) =>
      if resp.status != 200 then
        CallFailure("chat API error [" + IntToString(resp.status) + "]: " + resp.body)
      else
        match decodeChoices(resp.body)
        case Err(e) => CallFailure("error decoding chat response: " + e)
        case Ok(choices) =>
          if |choices| == 0 then CallFailure("error no choices in chat response")
          else Ok(choices[0])
  }

  /** The text of a non-200 failure: the status in brackets, then the body. */
  function StatusFailure(status: int, body: Str): Str {
    CallPrefix + "chat API error [" + IntToString(status) + "]: " + body
  }

  /** The position of the first `c` in `s`, or `|s|` when there is none. */
  function FirstIndex(s: Str, c: char): (r: nat)
    ensures r <= |s|
  {
    if |s| == 0 || s[0] == c then 0 else 1 + FirstIndex(s[1..], c)
  }

  lemma {:induction false} FirstIndexAfter(a: Str, c: char, rest: Str)
    requires c !in a
    ensures FirstIndex(a + [c] + rest, c) == |a|
  {
    if |a| > 0 {
      assert (a + [c] + rest)[1..] == a[1..] + [c] + rest;
      FirstIndexAfter(a[1..], c, rest);
    }
  }

  /** Splitting "a]: b" at its first ']' gives back `a` and `b`. */
  lemma BracketedInjective(a1: Str, b1: Str, a2: Str, b2: Str)
    requires ']' !in a1 && ']' !in a2
    requires a1 + "]: " + b1 == a2 + "]: " + b2
    ensures a1 == a2 && b1 == b2
  {
    var e := a1 + "]: " + b1;
    assert e == a1 + [']'] + (": " + b1);
    assert e == a2 + [']'] + (": " + b2);
    FirstIndexAfter(a1, ']', ": " + b1);
    FirstIndexAfter(a2, ']', ": " + b2);
    assert a1 == e[..|a1|] == a2;
    assert b1 == e[|a1| + 3..] == b2;
  }

  lemma Regroup(a: Str, b: Str, c: Str, d: Str)
    ensures a + b + c + d == a + (b + c + d)
  {
  }

  lemma PrefixCancel(p: Str, x: Str, y: Str)
    requires p + x == p + y
    ensures x == y
  {
    assert x == (p + x)[|p|..];
    assert y == (p + y)[|p|..];
  }

  /** The status and the body can be read back from a status failure. */
  lemma StatusFailureInjective(s1: int, b1: Str, s2: int, b2: Str)
    requires StatusFailure(s1, b1) == StatusFailure(s2, b2)
    ensures s1 == s2 && b1 == b2
  {
    var p := CallPrefix + "chat API error [";
    var i1, i2 := IntToString(s1), IntToString(s2);
    Regroup(p, i1, "]: ", b1);
    Regroup(p, i2, "]: ", b2);
    PrefixCancel(p, i1 + "]: " + b1, i2 + "]: " + b2);
    IntToStringChars(s1);
    IntToStringChars(s2);
    BracketedInjective(i1, b1, i2, b2);
    IntToStringInjective(s1, s2);
  }

  /** A non-200 reply always fails the call, and the error names the
      reply: two non-200 replies that fail alike had the same status and
      the same body. */
  lemma CallGroqApiNamesStatus(cfg: LlmConfig, payload: ChatRequest,
                               send1: HttpRequest -> Result<HttpResponse, Str>,
                               send2: HttpRequest -> Result<HttpResponse, Str>,
                               decodeChoices: Str -> Result<seq<Str>, Str>)
    requires send1(GroqHttpRequest(cfg, payload)).Ok? && send1(GroqHttpRequest(cfg, payload)).value.status != 200
    requires send2(GroqHttpRequest(cfg, payload)).Ok? && send2(GroqHttpRequest(cfg, payload)).value.status != 200
    requires CallGroqApi(cfg, payload, send1, decodeChoices) == CallGroqApi(cfg, payload, send2, decodeChoices)
    ensures CallGroqApi(cfg, payload, send1, decodeChoices).Err?
    ensures send1(GroqHttpRequest(cfg, payload)).value == send2(GroqHttpRequest(cfg, payload)).value
  {
    var r1 := send1(GroqHttpRequest(cfg, payload)).value;
    var r2 := send2(GroqHttpRequest(cfg, payload)).value;
    assert CallGroqApi(cfg, payload, send1, decodeChoices)
           == CallFailure("chat API error [" + IntToString(r1.status) + "]: " + r1.body);
    assert CallGroqApi(cfg, payload, send2, decodeChoices)
           == CallFailure("chat API error [" + IntToString(r2.status) + "]: " + r2.body);
    assert CallPrefix + ("chat API error [" + IntToString(r1.status) + "]: " + r1.body) == StatusFailure(r1.status, r1.body);
    assert CallPrefix + ("chat API error [" + IntToString(r2.status) + "]: " + r2.body) == StatusFailure(r2.status, r2.body);
    StatusFailureInjective(r1.status, r1.body, r2.status, r2.body);
  }

  // ---------------------------------------------------------------------
  // JSON repair

  predicate EndsWith(s: Str, suffix: Str) {
    |suffix| <= |s| && s[|s| - |suffix|..] == suffix
  }

  /** A rule-extraction answer cut off by the stop sequence is closed with
      "]}" unless it already ends with '}' and has a ']'. */
  function RepairJson(raw: Str): (r: Str)
    ensures EndsWith(r, "}") && ']' in r
    ensures EndsWith(raw, "}") && ']' in raw ==> r == raw
    ensures !(EndsWith(raw, "}") && ']' in raw) ==> r == raw + "]}"
  {
    if !EndsWith(raw, "}") || ']' !in raw then
      var r := raw + "]}";
      assert r[|raw|] == ']';
      r
    else raw
  }

  lemma RepairJsonIdempotent(raw: Str)
    ensures RepairJson(RepairJson(raw)) == RepairJson(raw)
  {
  }

  // ---------------------------------------------------------------------
  // The two calls

  /** `CheckCompliance`: ask the model and decode its verdict. */
  function CheckCompliance(cfg: LlmConfig, rules: seq<Rule>, content: Str,
                           send: HttpRequest -> Result<HttpResponse, Str>,
                           decodeChoices: Str -> Result<seq<Str>, Str>,
                           decodeVerdict: Str -> Result<ComplianceResponse, Str>): (r: Result<ComplianceResponse, Str>)
    ensures var reply := CallGroqApi(cfg, ComplianceRequest(cfg, rules, content), send, decodeChoices);
            && (reply.Err? ==> r == Err("checkCompliance :: error calling groq API: " + reply.error))
            && (reply.Ok? ==> r.Ok? == decodeVerdict(reply.value).Ok?)
            && (reply.Ok? && decodeVerdict(reply.value).Err? ==>
                  r == Err("checkCompliance :: error unmarshalling check compliance response: "
                           + decodeVerdict(reply.value).error))
            && (r.Ok? ==> reply.Ok? && r == decodeVerdict(reply.value))
  {
    match CallGroqApi(cfg, ComplianceRequest(cfg, rules, content), send, decodeChoices)
    case Err(e) => Err("checkCompliance :: error calling groq API: " + e)
    case Ok(answer) =>
      match decodeVerdict(answer)
      case Err(e) => Err("checkCompliance :: error unmarshalling check compliance response: " + e)
      case Ok(v) => Ok(v)
  }

  const ExtractCallError := "extractRules :: error calling groq API: "
  const ExtractDecodeError := "extractRules :: error unmarshalling extract rules response: "

  /** `ExtractRules`: ask the model, repair a truncated answer and decode
      the rules. */
  function ExtractRules(cfg: LlmConfig, content: Str,
                        send: HttpRequest -> Result<HttpResponse, Str>,
                        decodeChoices: Str -> Result<seq<Str>, Str>,
                        decodeRules: Str -> Result<seq<ExtractedRule>, Str>): (r: Result<seq<ExtractedRule>, Str>)
    ensures var reply := CallGroqApi(cfg, ExtractRulesRequest(cfg, content), send, decodeChoices);
            && (reply.Err? ==> r == Err(ExtractCallError + reply.error))
            && (reply.Ok? && decodeRules(RepairJson(reply.value)).Err? ==>
                  r == Err(ExtractDecodeError + decodeRules(RepairJson(reply.value)).error))
            && (r.Ok? <==> reply.Ok? && decodeRules(RepairJson(reply.value)).Ok?)
            && (r.Ok? ==> r == decodeRules(RepairJson(reply.value)))
  {
    match CallGroqApi(cfg, ExtractRulesRequest(cfg, content), send, decodeChoices)
    case Err(e) => Err(ExtractCallError + e)
    case Ok(answer) =>
      match decodeRules(RepairJson(answer))
      case Err(e) => Err(ExtractDecodeError + e)
      case Ok(rules) => Ok(rules)
  }

  /** A failed extraction says which step failed: the call to the model,
      or the decoding of its (repaired) answer. */
  lemma ExtractRulesErrorSource(cfg: LlmConfig, content: Str,
                                send: HttpRequest -> Result<HttpResponse, Str>,
                                decodeChoices: Str -> Result<seq<Str>, Str>,
                                decodeRules: Str -> Result<seq<ExtractedRule>, Str>)
    requires ExtractRules(cfg, content, send, decodeChoices, decodeRules).Err?
    ensures var reply := CallGroqApi(cfg, ExtractRulesRequest(cfg, content), send, decodeChoices);
            var e := ExtractRules(cfg, content, send, decodeChoices, decodeRules).error;
            && (reply.Err? <==> ExtractCallError <= e)
            && (reply.Ok? <==> ExtractDecodeError <= e)
  {
    var reply := CallGroqApi(cfg, ExtractRulesRequest(cfg, content), send, decodeChoices);
    var e := ExtractRules(cfg, content, send, decodeChoices, decodeRules).error;
    assert ExtractCallError[22] == 'c' && ExtractDecodeError[22] == 'u';
    if reply.Err? {
      assert e == ExtractCallError + reply.error;
      assert e[..|ExtractCallError|] == ExtractCallError;
      assert e[22] == 'c';
    } else {
      var d := decodeRules(RepairJson(reply.value)).error;
      assert e == ExtractDecodeError + d;
      assert e[..|ExtractDecodeError|] == ExtractDecodeError;
      assert e[22] == 'u';
    }
  }
}
