/**
 * `TriageAgent`: the text each KB entry is indexed under, the known-issue
 * decision, the next-step suggestion and the whole `triage_ticket` pipeline
 * (extraction, then KB search with `top_k = 3`, then decision and suggestion).
 */
module Agent {
  import opened Wrappers
  import opened Text
  import opened Schemas
  import opened RuleBased
  import opened Llm
  import opened KbSearch

  /** `TriageAgent._kb_doc_text`: title, symptoms, category and recommended
      action, joined by single spaces. */
  function KbDocText(e: KBEntry): (doc: string)
    ensures |doc| == |e.title| + |Join(e.symptoms, " ")| + |e.category| + |e.recommendedAction| + 3
  {
    var parts := [e.title, Join(e.symptoms, " "), e.category, e.recommendedAction];
    assert parts[1..][1..][1..] == [e.recommendedAction];
    assert Join(parts[1..][1..], " ") == e.category + " " + e.recommendedAction;
    assert Join(parts[1..], " ") == Join(e.symptoms, " ") + " " + Join(parts[1..][1..], " ");
    Join(parts, " ")
  }

  /** The number of matches `triage_ticket` asks the search for. */
  const TriageTopK: nat := 3

  /** The default threshold of `decide_known_or_new`. */
  const KnownThreshold: real := 0.25

  /** `decide_known_or_new(kb_matches, threshold)`: the best match is good enough. */
  function DecideKnownOrNew(matches: seq<KBMatch>, threshold: real): (known: bool)
    ensures matches == [] ==> !known
    ensures known ==> matches[0].score >= threshold
  {
    |matches| > 0 && matches[0].score >= threshold
  }

  const AttachOpening: string := "Attach KB article "
  const AttachClosing: string := " and respond to user with troubleshooting steps. If not resolved, escalate."
  const EscalateStep: string := "Escalate to engineering immediately and request logs."
  const AskStep: string := "Ask customer for more details such as screenshots, logs, and steps."

  /** The suggestion that points at KB article `id`. */
  function AttachStep(id: string): string {
    AttachOpening + id + AttachClosing
  }

  /** `severity in ["Critical", "High"]` */
  predicate IsUrgent(severity: Json) {
    severity == JString("Critical") || severity == JString("High")
  }

  /** `suggest_next_step(known_issue, kb_matches, severity)` */
  function SuggestNextStep(known: bool, matches: seq<KBMatch>, severity: Json): (step: string)
    ensures step == EscalateStep || step == AskStep || (|matches| > 0 && step == AttachStep(matches[0].id))
  {
    if known && |matches| > 0 then AttachStep(matches[0].id)
    else if IsUrgent(severity) then EscalateStep
    else AskStep
  }

  /** What `triage_ticket(description)` returns.  `sims` are the similarity
      scores of the description against the KB entries and `order` their
      argsort; `cfg`, `service` and `parse` are as for the extraction step. */
  function Triage(description: string, cfg: LlmConfig, service: nat -> Outcome,
                  parse: string -> Option<Json>,
                  kb: seq<KBEntry>, sims: seq<real>, order: seq<nat>): TriageResult
    requires |sims| == |kb| && InRange(order, |kb|)
  {
    var extracted := LlmExtract(description, cfg, service, parse);
    var matches := SearchResult(kb, sims, order, TriageTopK);
    var known := DecideKnownOrNew(matches, KnownThreshold);
    TriageResult(
      Strip(extracted.summary),
      extracted.category,
      extracted.severity,
      known,
      matches,
      SuggestNextStep(known, matches, extracted.severity))
  }

  /** `TriageAgent.triage_ticket`. */
  method TriageTicket(description: string, cfg: LlmConfig, service: nat -> Outcome,
                      parse: string -> Option<Json>,
                      kb: seq<KBEntry>, sims: seq<real>, order: seq<nat>) returns (r: TriageResult)
    requires |sims| == |kb| && IsArgsort(order, sims)
    ensures r == Triage(description, cfg, service, parse, kb, sims, order)
  {
    var extracted := CallLlmExtract(description, cfg, service, parse);
    var matches := SearchKb(kb, sims, order, TriageTopK);
    var known := DecideKnownOrNew(matches, KnownThreshold);
    var nextStep := SuggestNextStep(known, matches, extracted.severity);
    r := TriageResult(Strip(extracted.summary), extracted.category, extracted.severity,
                      known, matches, nextStep);
  }

  // ---------------------------------------------------------------------------
  // Properties

  /** The indexed text of an entry starts with its title, ends with its
      recommended action, and contains its category and each of its symptoms. */
  lemma KbDocTextParts(e: KBEntry)
    ensures var doc := KbDocText(e);
      && |e.title| <= |doc| && doc[..|e.title|] == e.title
      && |e.recommendedAction| <= |doc| && doc[|doc| - |e.recommendedAction|..] == e.recommendedAction
      && Contains(doc, e.category)
      && forall k :: 0 <= k < |e.symptoms| ==> Contains(doc, e.symptoms[k])
  {
    var parts := [e.title, Join(e.symptoms, " "), e.category, e.recommendedAction];
    JoinEnds(parts, " ");
    JoinContainsParts(parts, " ", 2);
    forall k | 0 <= k < |e.symptoms| ensures Contains(KbDocText(e), e.symptoms[k]) {
      JoinContainsParts(parts, " ", 1);
      JoinContainsParts(e.symptoms, " ", k);
      ContainsTrans(KbDocText(e), Join(e.symptoms, " "), e.symptoms[k]);
    }
  }

  /** The three suggestions are told apart by their lengths. */
  lemma StepsDiffer(id: string)
    ensures AttachStep(id) != EscalateStep && AttachStep(id) != AskStep && EscalateStep != AskStep
  {
    assert |AttachStep(id)| >= |AttachClosing| == 75;
    assert |EscalateStep| == 53 && |AskStep| == 67;
  }

  /** Which suggestion is made: the KB article for a known issue with a match;
      otherwise escalation for a Critical or High severity; otherwise a request
      for details.  Each holds in both directions. */
  lemma NextStepRules(known: bool, matches: seq<KBMatch>, severity: Json)
    ensures var r := SuggestNextStep(known, matches, severity);
      && (known && |matches| > 0 <==> |matches| > 0 && r == AttachStep(matches[0].id))
      && (r == EscalateStep <==> !(known && |matches| > 0) && IsUrgent(severity))
      && (r == AskStep <==> !(known && |matches| > 0) && !IsUrgent(severity))
  {
    if |matches| > 0 {
      StepsDiffer(matches[0].id);
    } else {
      StepsDiffer("");
    }
  }

  /** A ticket is a known issue exactly when some KB entry scores at least
      0.24995 against it (0.25 once rounded); its first match is then a
      best-scoring entry, and the suggestion points at that entry's article. */
  lemma TriageKnownIff(description: string, cfg: LlmConfig, service: nat -> Outcome,
                       parse: string -> Option<Json>,
                       kb: seq<KBEntry>, sims: seq<real>, order: seq<nat>)
    requires |sims| == |kb| && IsArgsort(order, sims)
    ensures var r := Triage(description, cfg, service, parse, kb, sims, order);
      && (r.knownIssue <==> exists i :: 0 <= i < |kb| && sims[i] >= 0.24995)
      && (r.knownIssue ==>
            && r.kbMatches != []
            && (forall i :: 0 <= i < |kb| ==> Round4(sims[i]) <= r.kbMatches[0].score)
            && r.suggestedNextStep == AttachStep(r.kbMatches[0].id))
  {
    SearchBestFirst(kb, sims, order, TriageTopK);
    SearchResultShape(kb, sims, order, TriageTopK);
    var sel := Selected(kb, sims, order, TriageTopK);
    var m := SearchResult(kb, sims, order, TriageTopK);
    if sel != [] {
      var best := sims[sel[0]];
      assert m[0].score == Round4(best);
      Round4Threshold(best);
      forall i | 0 <= i < |kb| ensures Round4(sims[i]) <= Round4(best) {
        Round4Monotone(sims[i], best);
      }
    }
    if exists i :: 0 <= i < |kb| && sims[i] >= 0.24995 {
      var i :| 0 <= i < |kb| && sims[i] >= 0.24995;
      assert sims[i] > 0.0;
    }
  }

  /** The matches of a triage: at most three, from entries scoring above
      zero, best first. */
  lemma TriageMatches(description: string, cfg: LlmConfig, service: nat -> Outcome,
                      parse: string -> Option<Json>,
                      kb: seq<KBEntry>, sims: seq<real>, order: seq<nat>)
    requires |sims| == |kb| && IsArgsort(order, sims)
    ensures var m := Triage(description, cfg, service, parse, kb, sims, order).kbMatches;
      var sel := Selected(kb, sims, order, TriageTopK);
      && |m| == |sel| <= TriageTopK && |m| <= |kb|
      && (forall j :: 0 <= j < |m| ==> sims[sel[j]] > 0.0 && m[j].score == Round4(sims[sel[j]]))
      && (forall j1, j2 :: 0 <= j1 < j2 < |m| ==> m[j1].score >= m[j2].score)
  {
    SearchResultShape(kb, sims, order, TriageTopK);
  }

  /** The reported summary: a usable service reply's summary as read (the
      second strip changes nothing), else the rule-based summary, stripped. */
  lemma TriageSummary(description: string, cfg: LlmConfig, service: nat -> Outcome,
                      parse: string -> Option<Json>,
                      kb: seq<KBEntry>, sims: seq<real>, order: seq<nat>)
    requires |sims| == |kb| && IsArgsort(order, sims)
    ensures Triage(description, cfg, service, parse, kb, sims, order).summary ==
      match ServiceFields(cfg, service, parse)
      case Some(f) => f.summary
      case None => Strip(Summary(description))
  {
    if ServiceFields(cfg, service, parse).Some? {
      ServiceSummaryStripped(cfg, service, parse);
    }
  }

  /** Without the remote service, a triage reports closed-set category and
      severity and the rule-based summary, stripped. */
  lemma TriageWithoutService(description: string, cfg: LlmConfig, service: nat -> Outcome,
                             parse: string -> Option<Json>,
                             kb: seq<KBEntry>, sims: seq<real>, order: seq<nat>)
    requires |sims| == |kb| && IsArgsort(order, sims)
    requires !UsesService(cfg)
    ensures var r := Triage(description, cfg, service, parse, kb, sims, order);
      && IsCategoryValue(r.category) && IsSeverityValue(r.severity)
      && r.summary == Strip(Summary(description))
      && '\n' !in r.summary
  {
    RuleBasedClosedSets(description);
    SummaryShape(description);
    StripWithin(Summary(description), '\n');
  }
}
