/**
 * The deterministic fallback extractor (`TriageAgent.rule_based_extract`):
 * category and severity by first-listed keyword hit in the lower-cased
 * description, and a summary made from the first line of the description.
 */
module RuleBased {
  import opened Text
  import opened Schemas

  /** Classes in priority order, each with its keywords (a Python dict, which
      iterates in insertion order). */
  type KeywordTable<T> = seq<(T, seq<string>)>

  const CategoryKeywords: KeywordTable<Category> := [
    (Billing, ["invoice", "bill", "payment", "charge", "refund", "billing"]),
    (Login, ["login", "signin", "password", "authenticate", "2fa", "two-factor"]),
    (Performance, ["slow", "latency", "timeout", "performance", "lag", "slowly"]),
    (Bug, ["error", "exception", "500", "crash", "fail", "bug", "stacktrace"]),
    (QuestionHowTo, ["how do", "how to", "documentation", "docs", "how-to", "question"])
  ]

  const SeverityKeywords: KeywordTable<Severity> := [
    (Critical, ["data loss", "security", "exposed", "down", "outage"]),
    (High, ["cannot", "failure", "failed", "500", "crash", "blocked"]),
    (Medium, ["errors", "intermittent", "timeout", "slow"]),
    (Low, ["minor", "cosmetic", "question", "how to"])
  ]

  const DefaultCategory: Category := Other
  const DefaultSeverity: Severity := Low

  /** A first line with more words than this is truncated ... */
  const SummaryWordLimit: nat := 30
  /** ... to this many words, followed by the ellipsis marker. */
  const SummaryKeptWords: nat := 25
  const Ellipsis: string := "..."

  /** `any(kw in text for kw in keywords)` */
  predicate AnyKeyword(keywords: seq<string>, text: string) {
    exists k :: k in keywords && Contains(text, k)
  }

  /** The position of the first row of `table` that has a keyword in `text`,
      or `|table|` when no row does. */
  function FirstHit<T>(table: KeywordTable<T>, text: string): (i: nat)
    ensures i <= |table|
    ensures forall j :: 0 <= j < i ==> !AnyKeyword(table[j].1, text)
    ensures i < |table| ==> AnyKeyword(table[i].1, text)
  {
    if |table| == 0 then 0
    else if AnyKeyword(table[0].1, text) then 0
    else 1 + FirstHit(table[1..], text)
  }

  /** The class of the first row with a keyword hit, else `default`. */
  function Classify<T>(table: KeywordTable<T>, text: string, default: T): T {
    var i := FirstHit(table, text);
    if i < |table| then table[i].0 else default
  }

  /** The classification loop of `rule_based_extract`: start from the default,
      walk the table in order, take the first class with a hit and stop. */
  method ClassifyByTable<T>(table: KeywordTable<T>, text: string, default: T) returns (r: T)
    ensures r == Classify(table, text, default)
  {
    r := default;
    var i := 0;
    while i < |table|
      invariant 0 <= i <= |table|
      invariant forall j :: 0 <= j < i ==> !AnyKeyword(table[j].1, text)
      invariant r == default
    {
      if AnyKeyword(table[i].1, text) {
        r := table[i].0;
        break;
      }
      i := i + 1;
    }
  }

  function CategoryOf(description: string): Category {
    Classify(CategoryKeywords, Lower(description), DefaultCategory)
  }

  function SeverityOf(description: string): Severity {
    Classify(SeverityKeywords, Lower(description), DefaultSeverity)
  }

  /** The first line of the stripped description, cut to its first 25 words
      plus an ellipsis when it has more than 30 words. */
  function Summary(description: string): string {
    var line := FirstLine(Strip(description));
    var words := Words(line);
    if |words| > SummaryWordLimit then Join(words[..SummaryKeptWords], " ") + Ellipsis else line
  }

  /** What `rule_based_extract` returns. */
  function RuleBasedResult(description: string): Extracted {
    Extracted(
      Summary(description),
      JString(CategoryOf(description).Name()),
      JString(SeverityOf(description).Name()))
  }

  /** `TriageAgent.rule_based_extract`. */
  method RuleBasedExtract(description: string) returns (r: Extracted)
    ensures r == RuleBasedResult(description)
  {
    var desc := Lower(description);
    var cat := ClassifyByTable(CategoryKeywords, desc, DefaultCategory);
    var sev := ClassifyByTable(SeverityKeywords, desc, DefaultSeverity);
    var summary := FirstLine(Strip(description));
    var words := Words(summary);
    if |words| > SummaryWordLimit {
      summary := Join(words[..SummaryKeptWords], " ") + Ellipsis;
    }
    r := Extracted(summary, JString(cat.Name()), JString(sev.Name()));
  }

  // ---------------------------------------------------------------------------
  // Properties

  /** No class appears twice in the table. */
  ghost predicate DistinctRows<T>(table: KeywordTable<T>) {
    forall i, j :: 0 <= i < j < |table| ==> table[i].0 != table[j].0
  }

  /** Row `i` is the first hit exactly when it has a hit and no earlier row
      does; with distinct rows, its class is the result exactly when it is the
      first hit, or when nothing hits and it is also the default. */
  lemma ClassifyIsFirstHit<T>(table: KeywordTable<T>, text: string, default: T, i: nat)
    requires DistinctRows(table)
    requires i < |table|
    ensures FirstHit(table, text) == i <==>
      AnyKeyword(table[i].1, text) && forall j :: 0 <= j < i ==> !AnyKeyword(table[j].1, text)
    ensures Classify(table, text, default) == table[i].0 <==>
      FirstHit(table, text) == i || (FirstHit(table, text) == |table| && default == table[i].0)
  {
    var f := FirstHit(table, text);
    if f < |table| {
      assert Classify(table, text, default) == table[f].0;
      assert f != i ==> table[f].0 != table[i].0;
    }
  }

  /** A row that has a hit wins unless an earlier row already does: priority is
      by position in the table, not by how specific the keyword is. */
  lemma {:induction false} HitBoundsWinner<T>(table: KeywordTable<T>, text: string, i: nat)
    requires i < |table| && AnyKeyword(table[i].1, text)
    ensures FirstHit(table, text) <= i
    ensures Classify(table, text, table[i].0) == table[FirstHit(table, text)].0
  {
  }

  /** Categories are tried as Billing, Login, Performance, Bug, Question/How-To;
      a category wins exactly when one of its keywords occurs in the lower-cased
      description and no keyword of an earlier category does; "Other" wins
      exactly when no keyword occurs. */
  lemma CategoryRule(description: string, i: nat)
    requires i < |CategoryKeywords|
    ensures CategoryKeywords[0].0 == Billing && CategoryKeywords[1].0 == Login
    ensures CategoryKeywords[2].0 == Performance && CategoryKeywords[3].0 == Bug
    ensures CategoryKeywords[4].0 == QuestionHowTo
    ensures CategoryOf(description) == CategoryKeywords[i].0 <==>
      AnyKeyword(CategoryKeywords[i].1, Lower(description)) &&
      forall j :: 0 <= j < i ==> !AnyKeyword(CategoryKeywords[j].1, Lower(description))
    ensures CategoryOf(description) == Other <==>
      forall j :: 0 <= j < |CategoryKeywords| ==> !AnyKeyword(CategoryKeywords[j].1, Lower(description))
  {
    var text := Lower(description);
    ClassifyIsFirstHit(CategoryKeywords, text, DefaultCategory, i);
    var f := FirstHit(CategoryKeywords, text);
    if f < |CategoryKeywords| {
      assert CategoryOf(description) == CategoryKeywords[f].0 != Other;
    }
  }

  /** Severities are tried as Critical, High, Medium, Low; Critical, High or
      Medium wins exactly when it is the first of them with a keyword in the
      lower-cased description, and "Low" wins exactly when none of those three
      has one (a Low keyword and no keyword at all give the same result). */
  lemma SeverityRule(description: string, i: nat)
    requires i < 3
    ensures SeverityKeywords[0].0 == Critical && SeverityKeywords[1].0 == High
    ensures SeverityKeywords[2].0 == Medium && SeverityKeywords[3].0 == Low
    ensures SeverityOf(description) == SeverityKeywords[i].0 <==>
      AnyKeyword(SeverityKeywords[i].1, Lower(description)) &&
      forall j :: 0 <= j < i ==> !AnyKeyword(SeverityKeywords[j].1, Lower(description))
    ensures SeverityOf(description) == Low <==>
      (forall j :: 0 <= j < 3 ==> !AnyKeyword(SeverityKeywords[j].1, Lower(description)))
  {
    var text := Lower(description);
    ClassifyIsFirstHit(SeverityKeywords, text, DefaultSeverity, i);
    ClassifyIsFirstHit(SeverityKeywords, text, DefaultSeverity, 3);
  }

  /** A Critical keyword anywhere decides the severity, whatever Low, Medium or
      High keywords the description also holds. */
  lemma CriticalWins(description: string, k: string)
    requires k in SeverityKeywords[0].1 && Contains(Lower(description), k)
    ensures SeverityOf(description) == Critical
  {
    HitBoundsWinner(SeverityKeywords, Lower(description), 0);
  }

  /** The rule-based extractor only ever yields members of the closed sets. */
  lemma RuleBasedClosedSets(description: string)
    ensures IsCategoryValue(RuleBasedResult(description).category)
    ensures IsSeverityValue(RuleBasedResult(description).severity)
  {
    CategoryNamesClosed(CategoryOf(description), CategoryOf(description));
    SeverityNamesClosed(SeverityOf(description), SeverityOf(description));
  }

  /** The summary is the first line of the stripped description when that line
      has at most 30 words; otherwise it is "..." after text that splits into
      exactly the line's first 25 words.  It never holds a line break. */
  lemma {:induction false} SummaryShape(description: string)
    ensures var line := FirstLine(Strip(description));
      var s := Summary(description);
      if |Words(line)| > SummaryWordLimit then
        |s| >= 3 && s[|s| - 3..] == Ellipsis && Words(s[..|s| - 3]) == Words(line)[..SummaryKeptWords]
      else s == line
    ensures '\n' !in Summary(description)
  {
    var line := FirstLine(Strip(description));
    var words := Words(line);
    if |words| > SummaryWordLimit {
      var kept := words[..SummaryKeptWords];
      var joined := Join(kept, " ");
      WordsOfJoin(kept);
      forall i | 0 <= i < |kept| ensures '\n' !in kept[i] {
        assert IsWord(kept[i]);
        assert forall j :: 0 <= j < |kept[i]| ==> kept[i][j] != '\n';
      }
      JoinAvoids(kept, " ", '\n');
      var s := joined + Ellipsis;
      assert s[..|s| - 3] == joined;
    }
  }

  /** The sample ticket of the service's tests, written in pieces so that the
      positions of its keywords "500" and "payment" are plain. */
  const CheckoutTicket: string :=
    "Checkout" + " failing with " + "500" + " error on mobile" + " when submitting " + "payment" + "."

  /** The sample ticket lower-cased, in the same pieces. */
  const CheckoutTicketLower: string :=
    "checkout" + " failing with " + "500" + " error on mobile" + " when submitting " + "payment" + "."

  lemma CheckoutTicketLowered()
    ensures Lower(CheckoutTicket) == CheckoutTicketLower
  {
    var p0, p1, k1, p2, p3, k2, p4 :=
      "Checkout", " failing with ", "500", " error on mobile", " when submitting ", "payment", ".";
    assert CheckoutTicket == p0 + p1 + k1 + p2 + p3 + k2 + p4;
    LowerConcat(p0, p1);
    LowerConcat(p0 + p1, k1);
    LowerConcat(p0 + p1 + k1, p2);
    LowerConcat(p0 + p1 + k1 + p2, p3);
    LowerConcat(p0 + p1 + k1 + p2 + p3, k2);
    LowerConcat(p0 + p1 + k1 + p2 + p3 + k2, p4);
    assert Lower(p0) == "checkout";
    assert Lower(p1) == p1 && Lower(k1) == k1;
    assert Lower(p2) == p2;
    assert Lower(p3) == p3;
    assert Lower(k2) == k2 && Lower(p4) == p4;
  }

  /** "500" and "payment" occur in the lower-cased sample ticket. */
  lemma CheckoutTicketWords()
    ensures Contains(Lower(CheckoutTicket), "500")
    ensures Contains(Lower(CheckoutTicket), "payment")
  {
    CheckoutTicketLowered();
    var p0, p1, k1, p2, p3, k2 := "checkout", " failing with ", "500", " error on mobile", " when submitting ", "payment";
    var text := CheckoutTicketLower;
    var i1, i2 := |p0| + |p1|, |p0| + |p1| + |k1| + |p2| + |p3|;
    assert text[i1..i1 + |k1|] == k1;
    assert MatchesAt(text, k1, i1);
    assert text[i2..i2 + |k2|] == k2;
    assert MatchesAt(text, k2, i2);
  }

  /** The lower-cased sample ticket has no "d" ... */
  lemma CheckoutTicketNoD()
    ensures 'd' !in CheckoutTicketLower
  {
    assert 'd' !in "checkout" && 'd' !in " failing with ";
    assert 'd' !in " error on mobile" && 'd' !in " when submitting " && 'd' !in "payment";
  }

  /** ... no "x" ... */
  lemma CheckoutTicketNoX()
    ensures 'x' !in CheckoutTicketLower
  {
    assert 'x' !in "checkout" && 'x' !in " failing with ";
    assert 'x' !in " error on mobile" && 'x' !in " when submitting " && 'x' !in "payment";
  }

  /** ... in it "y" never follows "t" ... */
  lemma CheckoutTicketNoTy(text: string)
    requires text == CheckoutTicketLower
    ensures forall j :: 0 <= j < |text| - 1 && text[j] == 't' ==> text[j + 1] != 'y'
  {
  }

  /** ... and "g" never follows "a". */
  lemma CheckoutTicketNoAg(text: string)
    requires text == CheckoutTicketLower
    ensures forall j :: 0 <= j < |text| - 1 && text[j] == 'a' ==> text[j + 1] != 'g'
  {
  }

  /** None of the five Critical keywords occurs in the sample ticket: "data
      loss" and "down" hold a "d", "exposed" an "x", "security" a "ty" and
      "outage" an "ag". */
  lemma CheckoutTicketNotCritical()
    ensures !AnyKeyword(SeverityKeywords[0].1, Lower(CheckoutTicket))
  {
    var text := Lower(CheckoutTicket);
    CheckoutTicketLowered();
    CheckoutTicketNoD();
    CheckoutTicketNoX();
    CheckoutTicketNoTy(text);
    CheckoutTicketNoAg(text);
    AbsentChar(text, "data loss", 'd', 0);
    AbsentPair(text, "security", 't', 'y', 6);
    AbsentChar(text, "exposed", 'x', 1);
    AbsentChar(text, "down", 'd', 0);
    AbsentPair(text, "outage", 'a', 'g', 3);
  }

  /** The sample ticket holds the Bug keyword "500" as well as the Billing
      keyword "payment"; Billing is listed first, so it wins. */
  lemma CheckoutTicketIsBilling()
    ensures AnyKeyword(CategoryKeywords[3].1, Lower(CheckoutTicket))
    ensures CategoryOf(CheckoutTicket) == Billing
  {
    var text := Lower(CheckoutTicket);
    CheckoutTicketWords();
    assert "500" in CategoryKeywords[3].1 && Contains(text, "500");
    assert "payment" in CategoryKeywords[0].1 && Contains(text, "payment");
    HitBoundsWinner(CategoryKeywords, text, 0);
  }

  /** With no Critical keyword, the sample ticket's "500" makes it High. */
  lemma CheckoutTicketIsHigh()
    ensures SeverityOf(CheckoutTicket) == High
  {
    var text := Lower(CheckoutTicket);
    CheckoutTicketWords();
    CheckoutTicketNotCritical();
    assert "500" in SeverityKeywords[1].1 && Contains(text, "500");
    SeverityRule(CheckoutTicket, 1);
  }
}
