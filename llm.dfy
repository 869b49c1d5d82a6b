/**
 * The resilient extraction step: `safe_llm_call`, a bounded retry loop around
 * the remote chat-completion call, and `TriageAgent.call_llm_extract`, which
 * turns its reply into extracted fields or falls back to the rule-based
 * extractor.  The remote call is given as the outcome of each attempt, and the
 * JSON parser as a function from text to an optional JSON value.
 */
module Llm {
  import opened Wrappers
  import opened Text
  import opened Schemas
  import opened RuleBased

  /** What one attempt at the remote call gives: the reply's message content,
      or a raised fault (unreachable service, timeout, malformed response). */
  datatype Outcome = Reply(content: string) | Fault

  /** The sentinel `safe_llm_call` returns when every attempt failed. */
  const LlmError: string := "LLM_ERROR"
  const DefaultRetries: nat := 3

  /** The first attempt in `[from, retries)` whose outcome is a reply, or
      `retries` when every one of them faults. */
  function FirstReply(service: nat -> Outcome, from: nat, retries: nat): (k: nat)
    requires from <= retries
    ensures from <= k <= retries
    ensures forall j :: from <= j < k ==> service(j).Fault?
    ensures k < retries ==> service(k).Reply?
    decreases retries - from
  {
    if from == retries then retries
    else if service(from).Reply? then from
    else FirstReply(service, from + 1, retries)
  }

  /** What `safe_llm_call` returns. */
  function LlmOutput(service: nat -> Outcome, retries: nat): string {
    var k := FirstReply(service, 0, retries);
    if k < retries then service(k).content else LlmError
  }

  /** How many times `safe_llm_call` invokes the remote service. */
  function AttemptsMade(service: nat -> Outcome, retries: nat): nat {
    var k := FirstReply(service, 0, retries);
    if k < retries then k + 1 else retries
  }

  /** `safe_llm_call(prompt, model_name, retries)`: attempt the call up to
      `retries` times, return the first reply, sleep after every failed attempt
      but the last, and return the sentinel when all attempts fail.  `sleeps`
      counts the waits of `delay` time units. */
  method SafeLlmCall(service: nat -> Outcome, retries: nat) returns (output: string, attempts: nat, sleeps: nat)
    requires retries >= 1
    ensures output == LlmOutput(service, retries)
    ensures attempts == AttemptsMade(service, retries) && 1 <= attempts <= retries
    ensures sleeps == attempts - 1
  {
    attempts, sleeps := 0, 0;
    var attempt := 0;
    while attempt < retries
      invariant attempt < retries
      invariant forall j :: 0 <= j < attempt ==> service(j).Fault?
      invariant attempts == attempt && sleeps == attempt
    {
      attempts := attempts + 1;
      var outcome := service(attempt);
      if outcome.Reply? {
        return outcome.content, attempts, sleeps;
      }
      if attempt == retries - 1 {
        return LlmError, attempts, sleeps;
      }
      sleeps := sleeps + 1;
      attempt := attempt + 1;
    }
    assert false;
  }

  // ---------------------------------------------------------------------------
  // call_llm_extract

  /** What decides whether the remote service is used: the `openai` module
      imported, and a non-empty API key configured. */
  datatype LlmConfig = LlmConfig(openaiInstalled: bool, apiKey: Option<string>, modelName: string)

  predicate UsesService(cfg: LlmConfig) {
    cfg.openaiInstalled && cfg.apiKey.Some? && cfg.apiKey.value != ""
  }

  /** Index of the first `c` in `s`, or `|s|`. */
  function IndexOf(s: string, c: char): (i: nat)
    ensures i <= |s|
    ensures forall j :: 0 <= j < i ==> s[j] != c
    ensures i < |s| ==> s[i] == c
  {
    if s == [] then 0
    else if s[0] == c then 0
    else 1 + IndexOf(s[1..], c)
  }

  /** Index of the last `c` in `s`, or -1. */
  function LastIndexOf(s: string, c: char): (i: int)
    ensures -1 <= i < |s|
    ensures forall j :: i < j < |s| ==> s[j] != c
    ensures i >= 0 ==> s[i] == c
  {
    if s == [] then -1
    else if s[|s| - 1] == c then |s| - 1
    else LastIndexOf(s[..|s| - 1], c)
  }

  /** The match of `re.search(r"\{.*\}", text, re.DOTALL)`: from the first
      `{` to the last `}`, when a `}` follows that `{`. */
  function BraceSpan(text: string): (r: Option<string>)
    ensures r.Some? ==> |r.value| >= 2 && r.value[0] == '{' && r.value[|r.value| - 1] == '}'
    ensures r.Some? <==> exists i, j :: 0 <= i < j < |text| && text[i] == '{' && text[j] == '}'
  {
    var p := IndexOf(text, '{');
    var q := LastIndexOf(text, '}');
    if p < q then Some(text[p..q + 1]) else None
  }

  /** The text handed to `json.loads`: the brace span if there is one, else the whole reply. */
  function ParseTarget(reply: string): string {
    match BraceSpan(reply)
    case Some(span) => span
    case None => reply
  }

  /** The keys read from the parsed reply. */
  const SummaryKey: string := "summary"
  const CategoryKey: string := "category"
  const SeverityKey: string := "severity"

  /** The fields read from the parsed reply, or `None` where Python raises:
      `.get` on a value that is not an object, `.strip()` on a summary that is
      not a string.  Category and severity are not checked against the closed
      sets. */
  function FieldsOf(data: Json): (r: Option<Extracted>)
    ensures r.Some? <==> data.JObject? && (SummaryKey in data.members ==> data.members[SummaryKey].JString?)
  {
    match data
    case JObject(m) =>
      var summary := if SummaryKey in m then m[SummaryKey] else JString("");
      if !summary.JString? then None
      else Some(Extracted(
        Strip(summary.s),
        if CategoryKey in m then m[CategoryKey] else JString("Other"),
        if SeverityKey in m then m[SeverityKey] else JString("Low")))
    case _ => None
  }

  /** The fields extracted from a reply, or `None` when parsing or field access fails. */
  function ReplyFields(reply: string, parse: string -> Option<Json>): Option<Extracted> {
    match parse(ParseTarget(reply))
    case Some(data) => FieldsOf(data)
    case None => None
  }

  /** What the remote path of `call_llm_extract` yields: the reply's fields,
      or `None` wherever the code falls back to the rule-based extractor (no
      `openai` module or no key, the sentinel, a reply that cannot be parsed or
      read). */
  function ServiceFields(cfg: LlmConfig, service: nat -> Outcome, parse: string -> Option<Json>): Option<Extracted> {
    if !UsesService(cfg) then None
    else
      var output := LlmOutput(service, DefaultRetries);
      if output == LlmError then None else ReplyFields(output, parse)
  }

  /** What `call_llm_extract` returns. */
  function LlmExtract(description: string, cfg: LlmConfig, service: nat -> Outcome,
                      parse: string -> Option<Json>): Extracted
  {
    match ServiceFields(cfg, service, parse)
    case Some(fields) => fields
    case None => RuleBasedResult(description)
  }

  /** `TriageAgent.call_llm_extract`. */
  method CallLlmExtract(description: string, cfg: LlmConfig, service: nat -> Outcome,
                        parse: string -> Option<Json>) returns (r: Extracted)
    ensures r == LlmExtract(description, cfg, service, parse)
  {
    if UsesService(cfg) {
      var output, _, _ := SafeLlmCall(service, DefaultRetries);
      if output == LlmError {
        r := RuleBasedExtract(description);
        return;
      }
      var fields := ReplyFields(output, parse);
      if fields.Some? {
        r := fields.value;
        return;
      }
      r := RuleBasedExtract(description);
      return;
    }
    r := RuleBasedExtract(description);
  }

  // ---------------------------------------------------------------------------
  // Properties

  /** With every attempt failing, all `retries` attempts are made and the
      sentinel comes back. */
  lemma AllAttemptsFail(service: nat -> Outcome, retries: nat)
    requires forall j :: 0 <= j < retries ==> service(j).Fault?
    ensures LlmOutput(service, retries) == LlmError
    ensures AttemptsMade(service, retries) == retries
  {
  }

  /** The first successful attempt ends the loop: its content is returned and
      no later attempt is made. */
  lemma FirstReplyReturned(service: nat -> Outcome, retries: nat, k: nat)
    requires k < retries && service(k).Reply?
    requires forall j :: 0 <= j < k ==> service(j).Fault?
    ensures LlmOutput(service, retries) == service(k).content
    ensures AttemptsMade(service, retries) == k + 1
  {
    var f := FirstReply(service, 0, retries);
    assert f <= k;
  }

  /** The brace span exists exactly when some `{` comes before some `}`; it
      then starts at the first `{` of the text and ends at its last `}`. */
  lemma BraceSpanIsGreedy(text: string)
    ensures BraceSpan(text).Some? <==>
      exists i, j :: 0 <= i < j < |text| && text[i] == '{' && text[j] == '}'
    ensures BraceSpan(text).Some? ==>
      var span := BraceSpan(text).value;
      && |span| >= 2 && span[0] == '{' && span[|span| - 1] == '}'
      && exists p :: MatchesAt(text, span, p)
           && (forall k :: 0 <= k < p ==> text[k] != '{')
           && (forall k :: p + |span| <= k < |text| ==> text[k] != '}')
  {
    var p := IndexOf(text, '{');
    var q := LastIndexOf(text, '}');
    if p < q {
      assert MatchesAt(text, text[p..q + 1], p);
    }
  }

  /** Without the `openai` module or an API key, the service is not used and
      extraction falls back to the rule-based one. */
  lemma NoKeyUsesRules(cfg: LlmConfig, service: nat -> Outcome, parse: string -> Option<Json>)
    requires !cfg.openaiInstalled || cfg.apiKey == None || cfg.apiKey == Some("")
    ensures ServiceFields(cfg, service, parse) == None
  {
  }

  /** When all three attempts fail, extraction falls back to the rule-based
      one and no fault reaches the caller. */
  lemma ServiceDownUsesRules(cfg: LlmConfig, service: nat -> Outcome, parse: string -> Option<Json>)
    requires forall j :: 0 <= j < DefaultRetries ==> service(j).Fault?
    ensures ServiceFields(cfg, service, parse) == None
  {
    AllAttemptsFail(service, DefaultRetries);
  }

  /** A reply that does not parse, parses to something other than an object,
      or has a non-string summary makes extraction fall back to the
      rule-based one. */
  lemma UnusableReplyUsesRules(cfg: LlmConfig, service: nat -> Outcome, parse: string -> Option<Json>, k: nat)
    requires k < DefaultRetries && service(k).Reply?
    requires forall j :: 0 <= j < k ==> service(j).Fault?
    requires var data := parse(ParseTarget(service(k).content));
      || data.None?
      || !data.value.JObject?
      || (SummaryKey in data.value.members && !data.value.members[SummaryKey].JString?)
    ensures ServiceFields(cfg, service, parse) == None
  {
    FirstReplyReturned(service, DefaultRetries, k);
    var data := parse(ParseTarget(service(k).content));
    if data.Some? {
      assert FieldsOf(data.value) == None;
    }
  }

  /** The summary read from a reply is already stripped: stripping it again
      changes nothing. */
  lemma ServiceSummaryStripped(cfg: LlmConfig, service: nat -> Outcome, parse: string -> Option<Json>)
    requires ServiceFields(cfg, service, parse).Some?
    ensures var f := ServiceFields(cfg, service, parse).value;
      Strip(f.summary) == f.summary
  {
    var output := LlmOutput(service, DefaultRetries);
    var data := parse(ParseTarget(output)).value;
    var m := data.members;
    var raw := if SummaryKey in m then m[SummaryKey].s else "";
    assert ServiceFields(cfg, service, parse).value.summary == Strip(raw);
    StripIdempotent(raw);
  }

  /** A usable reply gives its own fields: the stripped summary (default ""),
      the category (default "Other") and the severity (default "Low"), passed
      through whatever they are, closed-set member or not. */
  lemma UsableReplyFields(cfg: LlmConfig, service: nat -> Outcome, parse: string -> Option<Json>,
                          k: nat, m: map<string, Json>)
    requires UsesService(cfg)
    requires k < DefaultRetries && service(k).Reply? && service(k).content != LlmError
    requires forall j :: 0 <= j < k ==> service(j).Fault?
    requires parse(ParseTarget(service(k).content)) == Some(JObject(m))
    requires SummaryKey in m ==> m[SummaryKey].JString?
    ensures ServiceFields(cfg, service, parse) == Some(Extracted(
      if SummaryKey in m then Strip(m[SummaryKey].s) else "",
      if CategoryKey in m then m[CategoryKey] else JString("Other"),
      if SeverityKey in m then m[SeverityKey] else JString("Low")))
  {
    FirstReplyReturned(service, DefaultRetries, k);
  }
}
