/**
 * The post-processing half of `TriageAgent.search_kb`.  The TF-IDF similarity
 * of the query to each KB entry is given as `sims`, and numpy's
 * `sims.argsort()` as `order`: some permutation of the entry positions whose
 * scores never decrease.  numpy's default sort is not stable and the code
 * reverses its result, so the order among equal scores is left open.  The
 * search reverses `order`, keeps its first `top_k` positions, drops those whose
 * score is not positive, and turns the rest into matches.
 */
module KbSearch {
  import opened Schemas

  ghost predicate InRange(s: seq<nat>, n: nat) {
    forall a :: 0 <= a < |s| ==> s[a] < n
  }

  ghost predicate Distinct(s: seq<nat>) {
    forall a, b :: 0 <= a < b < |s| ==> s[a] != s[b]
  }

  ghost predicate AscendingBy(s: seq<nat>, sims: seq<real>)
    requires InRange(s, |sims|)
  {
    forall a, b :: 0 <= a < b < |s| ==> sims[s[a]] <= sims[s[b]]
  }

  ghost predicate DescendingBy(s: seq<nat>, sims: seq<real>)
    requires InRange(s, |sims|)
  {
    forall a, b :: 0 <= a < b < |s| ==> sims[s[a]] >= sims[s[b]]
  }

  /** What `sims.argsort()` may return: every position exactly once, scores
      non-decreasing, ties in any order. */
  ghost predicate IsArgsort(order: seq<nat>, sims: seq<real>) {
    && |order| == |sims|
    && InRange(order, |sims|)
    && Distinct(order)
    && (forall i :: 0 <= i < |sims| ==> i in order)
    && AscendingBy(order, sims)
  }

  /** `s[::-1]` */
  function Reverse<T>(s: seq<T>): (r: seq<T>)
    ensures |r| == |s|
    ensures forall i :: 0 <= i < |s| ==> r[i] == s[|s| - 1 - i]
  {
    seq(|s|, i requires 0 <= i < |s| => s[|s| - 1 - i])
  }

  /** Python's `s[:k]`: the first `k` items, or all but the last `-k` items
      when `k` is negative. */
  function TakePrefix<T>(s: seq<T>, k: int): (r: seq<T>)
    ensures |r| <= |s| && r == s[..|r|]
    ensures k >= 0 ==> |r| == if k < |s| then k else |s|
    ensures k < 0 ==> |r| == if |s| + k > 0 then |s| + k else 0
  {
    var n := if k >= 0 then (if k < |s| then k else |s|) else (if |s| + k > 0 then |s| + k else 0);
    s[..n]
  }

  /** The positions of `idx` whose score is positive, in their order in `idx`. */
  function Positive(idx: seq<nat>, sims: seq<real>): (r: seq<nat>)
    requires InRange(idx, |sims|)
    ensures |r| <= |idx| && InRange(r, |sims|)
    ensures forall a :: 0 <= a < |r| ==> sims[r[a]] > 0.0
  {
    if idx == [] then []
    else
      var init, last := idx[..|idx| - 1], idx[|idx| - 1];
      Positive(init, sims) + (if sims[last] > 0.0 then [last] else [])
  }

  /** Filtering keeps exactly the positions of `idx` with a positive score. */
  lemma {:induction false} PositiveMembers(idx: seq<nat>, sims: seq<real>)
    requires InRange(idx, |sims|)
    ensures forall x :: x in Positive(idx, sims) <==> x in idx && sims[x] > 0.0
  {
    if idx != [] {
      var init, last := idx[..|idx| - 1], idx[|idx| - 1];
      PositiveMembers(init, sims);
      assert idx == init + [last];
    }
  }

  /** `round(score, 4)`: the nearest multiple of 0.0001, a tie going to the
      even multiple.  It lies on the 0.0001 grid and is never more than half
      a step away. */
  function Round4(x: real): (r: real)
    ensures (r * 10000.0).Floor as real == r * 10000.0
    ensures x - 0.00005 <= r <= x + 0.00005
  {
    var y := x * 10000.0;
    var f := y.Floor;
    var d := y - f as real;
    var n := if d > 0.5 then f + 1 else if d < 0.5 then f else if f % 2 == 0 then f else f + 1;
    n as real / 10000.0
  }

  /** Rounding keeps order. */
  lemma Round4Monotone(x: real, y: real)
    requires x <= y
    ensures Round4(x) <= Round4(y)
  {
    var fx, fy := (x * 10000.0).Floor, (y * 10000.0).Floor;
    assert fx <= fy;
  }

  /** A score rounds to 0.25 or more exactly when it is at least 0.24995
      (the tie 2499.5 going to the even 2500). */
  lemma Round4Threshold(x: real)
    ensures Round4(x) >= 0.25 <==> x >= 0.24995
  {
    var f := (x * 10000.0).Floor;
    assert 2499 % 2 == 1;
    if f == 2499 {
      assert Round4(x) >= 0.25 <==> x * 10000.0 - 2499.0 >= 0.5;
    }
  }

  /** A positive score below half a step passes the `score <= 0` filter yet
      is reported as 0.0. */
  lemma TinyScoreReportedAsZero(x: real)
    requires 0.0 < x < 0.00005
    ensures Round4(x) == 0.0
  {
    assert (x * 10000.0).Floor == 0;
  }

  function MatchOf(e: KBEntry, score: real): KBMatch {
    KBMatch(e.id, e.title, Round4(score), e.recommendedAction)
  }

  /** One match per selected position, in order. */
  function ToMatches(kb: seq<KBEntry>, sims: seq<real>, sel: seq<nat>): (r: seq<KBMatch>)
    requires |sims| == |kb| && InRange(sel, |kb|)
    ensures |r| == |sel|
    ensures forall j :: 0 <= j < |sel| ==> r[j] == MatchOf(kb[sel[j]], sims[sel[j]])
  {
    seq(|sel|, j requires 0 <= j < |sel| => MatchOf(kb[sel[j]], sims[sel[j]]))
  }

  /** The KB positions `search_kb` reports, best first.  An empty KB has no
      vectorizer and yields none. */
  function Selected(kb: seq<KBEntry>, sims: seq<real>, order: seq<nat>, topK: int): seq<nat>
    requires |sims| == |kb| && InRange(order, |kb|)
    ensures InRange(Selected(kb, sims, order, topK), |kb|)
  {
    if |kb| == 0 then [] else Positive(TakePrefix(Reverse(order), topK), sims)
  }

  /** What `search_kb` returns (scores kept exact). */
  function SearchResult(kb: seq<KBEntry>, sims: seq<real>, order: seq<nat>, topK: int): seq<KBMatch>
    requires |sims| == |kb| && InRange(order, |kb|)
  {
    ToMatches(kb, sims, Selected(kb, sims, order, topK))
  }

  /** Looking at one more position adds its match when its score is positive. */
  lemma MatchesSnoc(kb: seq<KBEntry>, sims: seq<real>, idx: seq<nat>, x: nat)
    requires |sims| == |kb| && InRange(idx, |kb|) && x < |kb|
    ensures InRange(idx + [x], |kb|)
    ensures ToMatches(kb, sims, Positive(idx + [x], sims)) ==
      ToMatches(kb, sims, Positive(idx, sims)) + (if sims[x] > 0.0 then [MatchOf(kb[x], sims[x])] else [])
  {
    assert (idx + [x])[..|idx|] == idx;
  }

  /** `TriageAgent.search_kb(query, top_k)` after the similarity scores are known. */
  method SearchKb(kb: seq<KBEntry>, sims: seq<real>, order: seq<nat>, topK: int) returns (results: seq<KBMatch>)
    requires |sims| == |kb| && InRange(order, |kb|)
    ensures results == SearchResult(kb, sims, order, topK)
  {
    if |kb| == 0 {
      return [];
    }
    var top := TakePrefix(Reverse(order), topK);
    assert InRange(top, |kb|);
    results := [];
    for i := 0 to |top|
      invariant results == ToMatches(kb, sims, Positive(top[..i], sims))
    {
      var idx := top[i];
      var score := sims[idx];
      assert top[..i + 1] == top[..i] + [idx];
      MatchesSnoc(kb, sims, top[..i], idx);
      if score <= 0.0 {
        continue;
      }
      results := results + [MatchOf(kb[idx], score)];
    }
    assert top[..|top|] == top;
  }

  // ---------------------------------------------------------------------------
  // Properties

  lemma PositiveKeeps(idx: seq<nat>, sims: seq<real>, t: nat)
    requires InRange(idx, |sims|) && t < |idx| && sims[idx[t]] > 0.0
    ensures idx[t] in Positive(idx, sims)
  {
    PositiveMembers(idx, sims);
  }

  /** Filtering keeps distinct positions distinct. */
  lemma {:induction false} PositiveDistinct(idx: seq<nat>, sims: seq<real>)
    requires InRange(idx, |sims|) && Distinct(idx)
    ensures Distinct(Positive(idx, sims))
  {
    if idx != [] {
      var init, last := idx[..|idx| - 1], idx[|idx| - 1];
      assert Distinct(init);
      PositiveDistinct(init, sims);
      PositiveMembers(init, sims);
      var p := Positive(init, sims);
      if sims[last] > 0.0 {
        forall a | 0 <= a < |p| ensures p[a] != last {
          assert p[a] in init;
          var b :| 0 <= b < |init| && init[b] == p[a];
          assert idx[b] == p[a];
        }
        assert Positive(idx, sims) == p + [last];
      }
    }
  }

  /** Filtering keeps a best-first order best first. */
  lemma {:induction false} PositiveDescending(idx: seq<nat>, sims: seq<real>)
    requires InRange(idx, |sims|) && DescendingBy(idx, sims)
    ensures DescendingBy(Positive(idx, sims), sims)
  {
    if idx != [] {
      var init, last := idx[..|idx| - 1], idx[|idx| - 1];
      assert DescendingBy(init, sims);
      PositiveDescending(init, sims);
      PositiveMembers(init, sims);
      var p := Positive(init, sims);
      if sims[last] > 0.0 {
        forall a | 0 <= a < |p| ensures sims[p[a]] >= sims[last] {
          assert p[a] in init;
          var b :| 0 <= b < |init| && init[b] == p[a];
          assert idx[b] == p[a];
        }
        assert Positive(idx, sims) == p + [last];
      }
    }
  }

  /** Filtering a list whose scores are all positive changes nothing. */
  lemma {:induction false} PositiveOfPositives(idx: seq<nat>, sims: seq<real>)
    requires InRange(idx, |sims|)
    requires forall a :: 0 <= a < |idx| ==> sims[idx[a]] > 0.0
    ensures Positive(idx, sims) == idx
  {
    if idx != [] {
      var init := idx[..|idx| - 1];
      PositiveOfPositives(init, sims);
      assert idx == init + [idx[|idx| - 1]];
    }
  }

  /** A list led by a positive score keeps its head, and a filtered list is
      empty exactly when no score is positive. */
  lemma PositiveHead(idx: seq<nat>, sims: seq<real>)
    requires InRange(idx, |sims|)
    ensures Positive(idx, sims) == [] <==> forall a :: 0 <= a < |idx| ==> sims[idx[a]] <= 0.0
    ensures idx != [] && sims[idx[0]] > 0.0 ==> Positive(idx, sims) != [] && Positive(idx, sims)[0] == idx[0]
  {
    PositiveMembers(idx, sims);
    var r := Positive(idx, sims);
    if r != [] {
      assert r[0] in r;
    }
    if idx != [] && sims[idx[0]] > 0.0 {
      assert idx[0] in r;
      PositiveFirst(idx, sims);
    }
  }

  lemma {:induction false} PositiveFirst(idx: seq<nat>, sims: seq<real>)
    requires InRange(idx, |sims|) && idx != [] && sims[idx[0]] > 0.0
    ensures Positive(idx, sims) != [] && Positive(idx, sims)[0] == idx[0]
  {
    if |idx| > 1 {
      var init := idx[..|idx| - 1];
      assert init[0] == idx[0];
      PositiveFirst(init, sims);
    }
  }

  lemma ReverseOfAscending(order: seq<nat>, sims: seq<real>)
    requires InRange(order, |sims|) && AscendingBy(order, sims) && Distinct(order)
    ensures InRange(Reverse(order), |sims|) && DescendingBy(Reverse(order), sims) && Distinct(Reverse(order))
  {
  }

  /** The selected positions: at most `top_k` of them (and never more than
      the KB holds), distinct, each with a positive score, best first. */
  lemma SelectionShape(kb: seq<KBEntry>, sims: seq<real>, order: seq<nat>, topK: int)
    requires |sims| == |kb| && IsArgsort(order, sims)
    ensures var sel := Selected(kb, sims, order, topK);
      && |sel| <= |kb|
      && (topK >= 0 ==> |sel| <= topK)
      && Distinct(sel)
      && (forall j :: 0 <= j < |sel| ==> sims[sel[j]] > 0.0)
      && DescendingBy(sel, sims)
  {
    if |kb| > 0 {
      var rev := Reverse(order);
      ReverseOfAscending(order, sims);
      var top := TakePrefix(rev, topK);
      assert InRange(top, |sims|) && DescendingBy(top, sims) && Distinct(top);
      PositiveDistinct(top, sims);
      PositiveDescending(top, sims);
    }
  }

  /** The search returns at most `top_k` matches (and never more than the KB
      holds), from distinct KB positions whose scores are positive, best
      first.  A reported score is rounded, so it may be 0.0. */
  lemma SearchResultShape(kb: seq<KBEntry>, sims: seq<real>, order: seq<nat>, topK: int)
    requires |sims| == |kb| && IsArgsort(order, sims)
    ensures var sel := Selected(kb, sims, order, topK);
      var r := SearchResult(kb, sims, order, topK);
      && |r| == |sel| <= |kb|
      && (topK >= 0 ==> |r| <= topK)
      && Distinct(sel)
      && (forall j :: 0 <= j < |r| ==>
            && r[j] == MatchOf(kb[sel[j]], sims[sel[j]])
            && sims[sel[j]] > 0.0
            && r[j].score >= 0.0)
      && (forall j1, j2 :: 0 <= j1 < j2 < |r| ==> r[j1].score >= r[j2].score)
  {
    SelectionShape(kb, sims, order, topK);
    var sel := Selected(kb, sims, order, topK);
    forall j | 0 <= j < |sel| ensures Round4(sims[sel[j]]) >= 0.0 {
      Round4Monotone(0.0, sims[sel[j]]);
    }
    forall j1, j2 | 0 <= j1 < j2 < |sel| ensures Round4(sims[sel[j1]]) >= Round4(sims[sel[j2]]) {
      Round4Monotone(sims[sel[j2]], sims[sel[j1]]);
    }
  }

  /** An empty KB gives no matches, whatever the query. */
  lemma SearchEmptyKb(sims: seq<real>, order: seq<nat>, topK: int)
    requires |sims| == 0 && IsArgsort(order, sims)
    ensures SearchResult([], sims, order, topK) == []
  {
  }

  /** In a best-first list, a positive entry beyond the first `k` scores no
      higher than any of those `k`, which are then all positive. */
  lemma TopOfDescending(rev: seq<nat>, sims: seq<real>, k: nat, q: nat)
    requires InRange(rev, |sims|) && DescendingBy(rev, sims)
    requires k <= q < |rev| && sims[rev[q]] > 0.0
    ensures forall t :: 0 <= t < k ==> sims[rev[t]] >= sims[rev[q]] > 0.0
    ensures Positive(rev[..k], sims) == rev[..k]
  {
    PositiveOfPositives(rev[..k], sims);
  }

  /** Where the argsort puts position `i`. */
  lemma PositionOf(order: seq<nat>, sims: seq<real>, i: nat) returns (p: nat)
    requires IsArgsort(order, sims) && i < |sims|
    ensures p < |order| && order[p] == i
  {
    assert i in order;
    p :| 0 <= p < |order| && order[p] == i;
  }

  /** Filtering the first `k` of a best-first list: when a positive entry is
      left out, it lay beyond the first `k`, all `k` are kept, and each scores
      at least as high as it. */
  lemma TopKOfBestFirst(rev: seq<nat>, sims: seq<real>, k: nat, q: nat)
    requires InRange(rev, |sims|) && DescendingBy(rev, sims)
    requires q < |rev| && sims[rev[q]] > 0.0 && rev[q] !in Positive(TakePrefix(rev, k), sims)
    ensures var sel := Positive(TakePrefix(rev, k), sims);
      |sel| == k && forall j :: 0 <= j < k ==> sims[rev[q]] <= sims[sel[j]]
  {
    var top := TakePrefix(rev, k);
    if q < |top| {
      PositiveKeeps(top, sims, q);
    }
    assert top == rev[..k];
    TopOfDescending(rev, sims, k, q);
  }

  /** The top-k rule: an entry with a positive score that is not returned
      scores no higher than any returned entry, and `top_k` entries were
      returned. */
  lemma SearchKeepsBest(kb: seq<KBEntry>, sims: seq<real>, order: seq<nat>, topK: int, i: nat)
    requires |sims| == |kb| && IsArgsort(order, sims) && topK >= 0
    requires i < |kb| && sims[i] > 0.0 && i !in Selected(kb, sims, order, topK)
    ensures |Selected(kb, sims, order, topK)| == topK
    ensures forall j :: 0 <= j < topK ==> sims[i] <= sims[Selected(kb, sims, order, topK)[j]]
  {
    var p := PositionOf(order, sims, i);
    var rev := Reverse(order);
    ReverseOfAscending(order, sims);
    assert Selected(kb, sims, order, topK) == Positive(TakePrefix(rev, topK), sims);
    assert rev[|order| - 1 - p] == i;
    TopKOfBestFirst(rev, sims, topK, |order| - 1 - p);
  }

  /** Filtering the first `k >= 1` of a best-first list leaves something
      exactly when its head is positive, and the head then comes first. */
  lemma BestFirstHead(rev: seq<nat>, sims: seq<real>, k: int)
    requires InRange(rev, |sims|) && DescendingBy(rev, sims) && rev != [] && k >= 1
    ensures var sel := Positive(TakePrefix(rev, k), sims);
      && (sel != [] <==> sims[rev[0]] > 0.0)
      && (sel != [] ==> sel[0] == rev[0])
  {
    var top := TakePrefix(rev, k);
    assert top[0] == rev[0];
    PositiveHead(top, sims);
  }

  /** With `top_k >= 1`, the search finds something exactly when some entry
      scores above zero, and its first match is then a best-scoring entry. */
  lemma SearchBestFirst(kb: seq<KBEntry>, sims: seq<real>, order: seq<nat>, topK: int)
    requires |sims| == |kb| && IsArgsort(order, sims) && topK >= 1
    ensures var sel := Selected(kb, sims, order, topK);
      && (sel != [] <==> exists i :: 0 <= i < |kb| && sims[i] > 0.0)
      && (sel != [] ==> forall i :: 0 <= i < |kb| ==> sims[i] <= sims[sel[0]])
  {
    var n := |kb|;
    if n > 0 {
      var rev := Reverse(order);
      ReverseOfAscending(order, sims);
      var best := order[n - 1];
      assert rev[0] == best;
      forall i | 0 <= i < n ensures sims[i] <= sims[best] {
        var p := PositionOf(order, sims, i);
      }
      BestFirstHead(rev, sims, topK);
    }
  }
}
