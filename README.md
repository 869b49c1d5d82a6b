# Support ticket triage agent — a Dafny model

This project models the core of a small support-ticket triage service. The
service takes a free-text ticket description and returns:

- a one-line summary;
- a category from a closed set (Billing, Login, Performance, Bug,
  Question/How-To, Other);
- a severity from a closed set (Low, Medium, High, Critical);
- the best-matching knowledge-base (KB) articles;
- whether the ticket is a known issue;
- a suggested next step.

Extraction asks a remote language model for a JSON answer, retrying up to
three times. It falls back to a keyword-based extractor when the model is not
configured, unreachable, or answers something unusable. The HTTP endpoint
applies a per-client sliding-window rate limit (10 requests per 60 seconds)
before anything else, then rejects blank descriptions, then triages.

Modules, one per concern of the source:

- `Wrappers`: `Option`.
- `Text`: the Python `str` operations the code uses, over ASCII. These are
  `lower()`, substring `in`, `strip()`, `split("\n")[0]`, `split()` and
  `" ".join`.
- `Schemas`: the closed sets, KB entries and matches, JSON values, the
  extracted fields and the response body.
- `RuleBased`: the keyword tables and `rule_based_extract`.
- `Llm`: `safe_llm_call` and `call_llm_extract`. The remote call is an input
  `service: nat -> Outcome` (what attempt `k` gives). The JSON parser is an
  input `parse`.
- `KbSearch`: the post-processing part of `search_kb`. The similarity scores
  `sims` and numpy's `argsort` are inputs.
- `Agent`: `_kb_doc_text`, `decide_known_or_new`, `suggest_next_step` and
  `triage_ticket`.
- `Api`: the rate limiter, modelled as a class over the `rate_limiter`
  dictionary, and the `POST /triage` handler. The clock reading `now` is a
  parameter.

Each loop of the source is a method proved against a function:
`ClassifyByTable`, `SafeLlmCall`, `SearchKb` and `RateLimiter.IsRateLimited`.
The properties are proved about those functions.

Where the design description and the code disagree, the model follows the
code:

- Ties in the search are not broken by KB position. numpy's default argsort
  is not stable, and the code reverses it, so the order among equal scores is
  left open (`IsArgsort`).
- The sample ticket "Checkout failing with 500 error on mobile when submitting
  payment." is classified Billing, not Bug, because Billing's "payment" is
  listed before Bug's "500". Its severity is High
  (`CheckoutTicketIsBilling`, `CheckoutTicketIsHigh`).
- The category and severity the language model returns are passed through
  unchecked. One outside the closed sets makes the response model reject the
  result, so the request is answered 500 (`Response.InternalError`).
- The known-issue threshold applies to the score after `round(score, 4)`. An
  entry scoring 0.24995 already makes a ticket known (`Round4Threshold`,
  `TriageKnownIff`).
- Not every reported match has a positive score. A score in (0, 0.00005)
  passes the `score <= 0` filter and is then reported as 0.0
  (`TinyScoreReportedAsZero`, `SearchResultShape`).

## Model

| member | source | states |
|---|---|---|
| Schemas.ClosedValues | app/schemas.py:4-5 | a JSON value is a closed-set category (severity) exactly when it is a string among the six (four) literal names |
| Schemas.CategoryNamesClosed | app/schemas.py:5 | every category name is one of the six literals, and distinct categories have distinct names |
| Schemas.SeverityNamesClosed | app/schemas.py:4 | every severity name is one of the four literals, and distinct severities have distinct names |
| RuleBased.FirstHit | app/agent.py:154-157 | the returned row has a keyword in the text and no earlier row has one; past the end means no row has one |
| RuleBased.ClassifyByTable | app/agent.py:153-164 | the loop returns the class of the first row with a keyword hit, or the default when none hits |
| RuleBased.ClassifyIsFirstHit | app/agent.py:153-164 | row i is chosen iff it has a hit and no earlier row does; its class is the result iff it is that row or nothing hits and it is the default |
| RuleBased.HitBoundsWinner | app/agent.py:154-157 | a row with a hit bounds the winner: the winner is that row or an earlier one |
| RuleBased.CategoryRule | app/agent.py:153-157 | categories are tried as Billing, Login, Performance, Bug, Question/How-To; one wins iff it has a keyword in the lower-cased text and no earlier one does; Other iff no keyword occurs |
| RuleBased.SeverityRule | app/agent.py:160-164 | severities are tried as Critical, High, Medium, Low; each of the first three wins iff it is the first with a keyword; Low iff none of those three has one |
| RuleBased.CriticalWins | app/agent.py:28 | any Critical keyword makes the severity Critical, whatever else the text holds |
| RuleBased.RuleBasedClosedSets | app/agent.py:149-171 | the fallback extractor only yields closed-set category and severity names |
| RuleBased.SummaryShape | app/agent.py:167-169 | the summary is the first line of the stripped text when it has at most 30 words, else text whose words are that line's first 25, then "..."; it never holds a line break |
| RuleBased.RuleBasedExtract | app/agent.py:149-171 | the method returns the rule-based result: first-hit category and severity of the lower-cased text, and the summary |
| RuleBased.CheckoutTicketNotCritical | app/agent.py:28 | no Critical keyword occurs in the sample ticket |
| RuleBased.CheckoutTicketIsBilling | app/agent.py:153-157 | the sample ticket of the service's tests holds the Bug keyword "500", yet it is classified Billing, the earlier row |
| RuleBased.CheckoutTicketIsHigh | app/agent.py:160-164 | the sample ticket of the service's tests is High: no Critical keyword, and the High keyword "500" |
| Llm.FirstReply | app/agent.py:41-57 | the first attempt that replies: all earlier attempts faulted |
| Llm.SafeLlmCall | app/agent.py:40-58 | returns the first reply, or the sentinel "LLM_ERROR" when every attempt faults; makes attempts up to and including the first reply, and sleeps once after each failed attempt but the last |
| Llm.AllAttemptsFail | app/agent.py:54-57 | when every attempt faults, all attempts are made and the sentinel is returned |
| Llm.FirstReplyReturned | app/agent.py:41-52 | the k-th attempt's reply is returned when it is the first reply, after exactly k+1 attempts |
| Llm.BraceSpan | app/agent.py:130 | the span, when found, starts with "{" and ends with "}", and is found iff some "{" precedes some "}"; its position is pinned by `BraceSpanIsGreedy` |
| Llm.FieldsOf | app/agent.py:136-140 | the fields can be read iff the parsed value is an object whose summary, if present, is a string; what they are is stated by `UsableReplyFields` |
| Llm.ServiceSummaryStripped | app/agent.py:137 | the summary read from a reply is already stripped |
| Llm.BraceSpanIsGreedy | app/agent.py:130-134 | a brace span exists iff some "{" precedes some "}"; it runs from the first "{" of the reply to its last "}" |
| Llm.NoKeyUsesRules | app/agent.py:111-146 | without the openai module or a non-empty key, the service is not used and extraction falls back to the rules |
| Llm.ServiceDownUsesRules | app/agent.py:122-126 | when all three attempts fault, extraction falls back to the rules |
| Llm.UnusableReplyUsesRules | app/agent.py:128-143 | a reply that does not parse, is not an object, or has a non-string summary makes extraction fall back to the rules |
| Llm.UsableReplyFields | app/agent.py:130-140 | a usable reply gives the stripped summary (default "") and the category and severity (defaults "Other" and "Low") unchecked |
| Llm.CallLlmExtract | app/agent.py:108-146 | the method returns the service's fields when they are usable, else the rule-based result |
| KbSearch.Positive | app/agent.py:94-97 | the kept positions are in range and all score above zero |
| KbSearch.PositiveMembers | app/agent.py:94-97 | a position is kept iff it was examined and scores above zero |
| KbSearch.Round4 | app/agent.py:102 | the reported score is a multiple of 0.0001 and within half a step (0.00005) of the exact one |
| KbSearch.TinyScoreReportedAsZero | app/agent.py:96-102 | a score in (0, 0.00005) passes the positive-score filter yet is reported as 0.0 |
| KbSearch.Round4Monotone | app/agent.py:102 | rounding keeps order |
| KbSearch.Round4Threshold | app/agent.py:102 | a score rounds to 0.25 or more iff it is at least 0.24995 |
| KbSearch.SearchKb | app/agent.py:86-105 | the loop's matches are the top-k positions of the reversed argsort with a positive score, in that order, with rounded scores |
| KbSearch.SelectionShape | app/agent.py:92-97 | at most top_k positions (and at most the KB size), distinct, each with a positive score, best first |
| KbSearch.SearchResultShape | app/agent.py:86-105 | the matches are the selected entries with rounded scores, non-negative and non-increasing |
| KbSearch.SearchEmptyKb | app/agent.py:87-88 | an empty KB gives no matches |
| KbSearch.SearchKeepsBest | app/agent.py:92-97 | a positive-scoring entry left out means top_k entries came back, each scoring at least as high |
| KbSearch.SearchBestFirst | app/agent.py:92-97 | with top_k ≥ 1, something comes back iff some entry scores above zero; the first is then a maximum |
| Agent.KbDocText | app/agent.py:77-83 | the indexed text is the four fields with one space between each; its parts are placed by `KbDocTextParts` |
| Agent.DecideKnownOrNew | app/agent.py:173-176 | no matches is never known, and known means the first match reaches the threshold; `TriageKnownIff` gives the whole decision in terms of the scores |
| Agent.SuggestNextStep | app/agent.py:178-186 | the step is one of the three suggestions, the article one only with a match; `NextStepRules` says which, in both directions |
| Agent.KbDocTextParts | app/agent.py:77-83 | the indexed text starts with the title, ends with the action, and contains the category and every symptom |
| Agent.StepsDiffer | app/agent.py:178-186 | the three suggestions are distinct strings |
| Agent.NextStepRules | app/agent.py:178-186 | the article step iff known with a match; escalation iff not that and Critical/High; the request for details iff neither |
| Agent.TriageKnownIff | app/agent.py:173-176 | a ticket is known iff some entry scores at least 0.24995; the first match then has the top rounded score, and the step points at it |
| Agent.TriageMatches | app/agent.py:188-201 | at most three matches, from positive-scoring entries, with rounded non-increasing scores |
| Agent.TriageSummary | app/agent.py:195 | the reported summary is a usable reply's summary as read (the second strip changes nothing), else the stripped rule-based summary |
| Agent.TriageWithoutService | app/agent.py:188-201 | without the service, category and severity are in the closed sets and the summary is the stripped rule-based one, free of line breaks |
| Agent.TriageTicket | app/agent.py:188-201 | the method composes extraction, a top-3 search, the decision and the suggestion, and re-strips the summary |
| Api.RateLimiter.constructor | app/main.py:24 | the limiter starts with an empty table |
| Api.RateLimiter.IsRateLimited | app/main.py:27-47 | the new table and the answer are one rate-limit step from the old table; no client ever has more than ten times on record |
| Api.PruneAppend | app/main.py:39 | filtering distributes over concatenation |
| Api.PruneMembers | app/main.py:39 | a time survives iff it is after the window start |
| Api.PruneCounts | app/main.py:39 | the survivors are as many as the times after the window start |
| Api.PruneSorted | app/main.py:39 | filtering keeps times in ascending order |
| Api.RateLimitRule | app/main.py:32-47 | denied iff ten or more times lie within the last 60 seconds; the client's record becomes those times, plus now when allowed; other clients unchanged |
| Api.RateLimitKeepsBound | app/main.py:41-46 | a step keeps every client at ten times or fewer |
| Api.RateLimitKeepsOrder | app/main.py:39-46 | with a clock that does not go backwards, each record stays in ascending order |
| Api.HandleOrder | app/main.py:63-82 | 429 iff limited; 400 iff allowed and blank; 200 iff allowed, non-blank and closed-set; a 200 carries the triage result |
| Api.BlankRequestCounts | app/main.py:67-75 | a 400 answer was allowed by the limiter, and the request's time was recorded |
| Api.BlankIsBadRequest | app/main.py:74-75 | an all-whitespace description let through is answered 400 "description cannot be empty" |
| Api.HandleWithoutService | app/main.py:78-80 | without the service, an allowed non-blank request is answered 200 with its triage |
| Api.HandleTriage | app/main.py:63-82 | the endpoint's answer and new table are the handler function of the old table and the triage result |

## Left out

- TF-IDF vectorisation and cosine similarity are not modelled. The scores and their argsort are inputs, and `_kb_doc_text` is modelled on its own.
- KB loading from a file is not modelled. Entries are values whose absent fields read as "". An entry missing its id, title or action makes `KBMatch` raise, giving a 500. That case is not modelled.
- Round4: scores are taken as exact reals. A binary float whose decimal form looks like a tie may round the other way.
- The prompt text, the request options of the remote call, `print`, and the length of the `time.sleep` waits are not modelled. The waits are counted.
- SafeLlmCall requires `retries >= 1`. With no attempts Python returns `None`, which the only caller never causes: it always passes the default of 3.
- `json.loads` is not modelled. It is the `parse` input, and a parse error is `None`.
- The regular-expression engine is not modelled. Only the one greedy `\{.*\}` pattern with DOTALL is modelled, as "first `{` to last `}`".
- A reply whose content is the literal text "LLM_ERROR" is handled by the code like a failure. The model does the same, because it compares against the sentinel.
- A reply whose message content is `null` is not modelled.
- Unicode case mapping and whitespace are not modelled. `lower()`, `strip()` and `split()` act on ASCII only.
- Concurrency is not modelled. Requests are handled one at a time.
- FastAPI static files and the `/` route are not modelled. The 422 answer to a body without a `description` string is produced before the handler runs and is not modelled either.
- HandleOrder: the 500 answer with the exception's text, for exceptions raised inside `triage_ticket`, is not modelled. The only 500 modelled is the response model rejecting a category or severity outside the closed sets.
