/**
 * The record types of the triage service: the closed Category and Severity
 * sets, knowledge-base entries and matches, JSON values as the extraction step
 * sees them, the extracted fields and the triage result.
 */
module Schemas {

  /** The closed set of ticket categories. */
  datatype Category = Billing | Login | Performance | Bug | QuestionHowTo | Other {
    function Name(): string {
      match this
      case Billing => "Billing"
      case Login => "Login"
      case Performance => "Performance"
      case Bug => "Bug"
      case QuestionHowTo => "Question/How-To"
      case Other => "Other"
    }
  }

  /** The closed set of ticket severities. */
  datatype Severity = Low | Medium | High | Critical {
    function Name(): string {
      match this
      case Low => "Low"
      case Medium => "Medium"
      case High => "High"
      case Critical => "Critical"
    }
  }

  const CategoryNames: seq<string> :=
    ["Billing", "Login", "Performance", "Bug", "Question/How-To", "Other"]
  const SeverityNames: seq<string> := ["Low", "Medium", "High", "Critical"]

  /** A JSON value, as produced by a JSON parser. */
  datatype Json =
    | JNull
    | JBool(b: bool)
    | JNumber(n: real)
    | JString(s: string)
    | JArray(items: seq<Json>)
    | JObject(members: map<string, Json>)

  /** A knowledge-base entry; fields absent from the KB file read as empty. */
  datatype KBEntry = KBEntry(
    id: string,
    title: string,
    symptoms: seq<string>,
    category: string,
    recommendedAction: string)

  /** One search hit: the entry's identity and action, and its similarity score. */
  datatype KBMatch = KBMatch(id: string, title: string, score: real, recommendedAction: string)

  /** The fields the extraction step produces.  Category and severity are
      whatever JSON value the extractor produced: the rule-based extractor only
      ever yields closed-set names, the LLM path passes values through. */
  datatype Extracted = Extracted(summary: string, category: Json, severity: Json)

  /** The response body of a triage request. */
  datatype TriageResult = TriageResult(
    summary: string,
    category: Json,
    severity: Json,
    knownIssue: bool,
    kbMatches: seq<KBMatch>,
    suggestedNextStep: string)

  /** A JSON value that is one of the closed category names. */
  predicate IsCategoryValue(v: Json) {
    exists c: Category :: v == JString(c.Name())
  }

  /** A JSON value that is one of the closed severity names. */
  predicate IsSeverityValue(v: Json) {
    exists s: Severity :: v == JString(s.Name())
  }

  /** Every category's name is in the closed set, and distinct categories have distinct names. */
  lemma CategoryNamesClosed(c: Category, d: Category)
    ensures c.Name() in CategoryNames
    ensures c.Name() == d.Name() ==> c == d
  {
  }

  /** Every severity's name is in the closed set, and distinct severities have distinct names. */
  lemma SeverityNamesClosed(s: Severity, t: Severity)
    ensures s.Name() in SeverityNames
    ensures s.Name() == t.Name() ==> s == t
  {
  }

  /** The closed-set predicates accept exactly the strings of the two name lists. */
  lemma ClosedValues(v: Json)
    ensures IsCategoryValue(v) <==> v.JString? && v.s in CategoryNames
    ensures IsSeverityValue(v) <==> v.JString? && v.s in SeverityNames
  {
    if v.JString? && v.s in CategoryNames {
      var k :| 0 <= k < |CategoryNames| && CategoryNames[k] == v.s;
      var cs := [Billing, Login, Performance, Bug, QuestionHowTo, Other];
      assert v == JString(cs[k].Name());
    }
    if v.JString? && v.s in SeverityNames {
      var k :| 0 <= k < |SeverityNames| && SeverityNames[k] == v.s;
      var ss := [Low, Medium, High, Critical];
      assert v == JString(ss[k].Name());
    }
  }
}
