/**
 * The handful of Python `str` operations the triage code relies on, over
 * ASCII: `lower()`, `in` (substring containment), `strip()`, `split("\n")`,
 * `split()` and `sep.join(parts)`.  Whitespace is the ASCII part of Python's
 * `str.isspace()`: space, tab, line feed, vertical tab, form feed, carriage
 * return and the four separators U+001C..U+001F.
 */
module Text {

  predicate IsSpace(c: char) {
    c == ' ' || '\t' <= c <= '\r' || '\U{1C}' <= c <= '\U{1F}'
  }

  /** A word of `str.split()`: non-empty and free of whitespace. */
  predicate IsWord(w: string) {
    w != [] && forall i :: 0 <= i < |w| ==> !IsSpace(w[i])
  }

  // ---------------------------------------------------------------------------
  // lower() and substring containment

  function LowerChar(c: char): char {
    if 'A' <= c <= 'Z' then (c as int + 32) as char else c
  }

  /** `s.lower()`, ASCII letters only. */
  function Lower(s: string): string {
    seq(|s|, i requires 0 <= i < |s| => LowerChar(s[i]))
  }

  lemma LowerConcat(a: string, b: string)
    ensures Lower(a + b) == Lower(a) + Lower(b)
  {
  }

  /** `k` occurs in `s` starting at index `j`. */
  predicate MatchesAt(s: string, k: string, j: int) {
    0 <= j && j + |k| <= |s| && s[j..j + |k|] == k
  }

  /** Python's `k in s` for strings. */
  predicate Contains(s: string, k: string) {
    exists j :: 0 <= j <= |s| - |k| && MatchesAt(s, k, j)
  }

  /** Containment is transitive. */
  lemma ContainsTrans(a: string, b: string, c: string)
    requires Contains(a, b) && Contains(b, c)
    ensures Contains(a, c)
  {
    var j1 :| 0 <= j1 <= |a| - |b| && MatchesAt(a, b, j1);
    var j2 :| 0 <= j2 <= |b| - |c| && MatchesAt(b, c, j2);
    forall k | 0 <= k < |c| ensures a[j1 + j2 + k] == c[k] {
      assert b[j2..j2 + |c|][k] == b[j2 + k];
      assert a[j1..j1 + |b|][j2 + k] == a[j1 + j2 + k];
    }
    assert a[j1 + j2..j1 + j2 + |c|] == c;
    assert MatchesAt(a, c, j1 + j2);
  }

  /** A string holding a character that `s` lacks does not occur in `s`. */
  lemma AbsentChar(s: string, k: string, c: char, i: nat)
    requires c !in s && i < |k| && k[i] == c
    ensures !Contains(s, k)
  {
    forall j | 0 <= j <= |s| - |k| ensures !MatchesAt(s, k, j) {
      assert s[j + i] in s;
    }
  }

  /** A string in which `b` follows `a` does not occur in an `s` where `b`
      never follows `a`. */
  lemma AbsentPair(s: string, k: string, a: char, b: char, i: nat)
    requires forall j :: 0 <= j < |s| - 1 && s[j] == a ==> s[j + 1] != b
    requires i + 1 < |k| && k[i] == a && k[i + 1] == b
    ensures !Contains(s, k)
  {
    forall j | 0 <= j <= |s| - |k| ensures !MatchesAt(s, k, j) {
      assert s[j..j + |k|][i] == s[j + i];
    }
  }

  // ---------------------------------------------------------------------------
  // strip()

  function StripStart(s: string): (r: string)
    ensures |r| <= |s| && r == s[|s| - |r|..]
    ensures forall i :: 0 <= i < |s| - |r| ==> IsSpace(s[i])
    ensures r != [] ==> !IsSpace(r[0])
  {
    if s != [] && IsSpace(s[0]) then StripStart(s[1..]) else s
  }

  function StripEnd(s: string): (r: string)
    ensures |r| <= |s| && r == s[..|r|]
    ensures forall i :: |r| <= i < |s| ==> IsSpace(s[i])
    ensures r != [] ==> !IsSpace(r[|r| - 1])
  {
    if s != [] && IsSpace(s[|s| - 1]) then StripEnd(s[..|s| - 1]) else s
  }

  /** `s.strip()`: empty exactly for an all-whitespace `s`, and otherwise
      neither starting nor ending with whitespace. */
  function Strip(s: string): (r: string)
    ensures r == [] <==> forall i :: 0 <= i < |s| ==> IsSpace(s[i])
    ensures r != [] ==> !IsSpace(r[0]) && !IsSpace(r[|r| - 1])
  {
    var t := StripStart(s);
    var r := StripEnd(t);
    assert r != [] ==> r[0] == t[0];
    r
  }

  lemma {:induction false} StripIdempotent(s: string)
    ensures Strip(Strip(s)) == Strip(s)
  {
    var r := Strip(s);
    if r != [] {
      assert StripStart(r) == r;
      assert StripEnd(r) == r;
    }
  }

  /** `s.strip()` only removes characters: one absent from `s` is absent from it. */
  lemma StripWithin(s: string, c: char)
    requires c !in s
    ensures c !in Strip(s)
  {
    var t := StripStart(s);
    assert forall i :: 0 <= i < |t| ==> t[i] == s[|s| - |t| + i];
    var r := StripEnd(t);
    assert forall i :: 0 <= i < |r| ==> r[i] == t[i];
  }

  // ---------------------------------------------------------------------------
  // split("\n")[0]

  /** The first element of `s.split("\n")`: everything before the first line feed. */
  function FirstLine(s: string): (r: string)
    ensures |r| <= |s| && r == s[..|r|]
    ensures '\n' !in r
    ensures |r| < |s| ==> s[|r|] == '\n'
  {
    if s == [] || s[0] == '\n' then [] else [s[0]] + FirstLine(s[1..])
  }

  // ---------------------------------------------------------------------------
  // split() and join

  /** Length of the run of non-whitespace characters that `s` starts with. */
  function WordEnd(s: string): (n: nat)
    ensures n <= |s|
    ensures forall i :: 0 <= i < n ==> !IsSpace(s[i])
    ensures n < |s| ==> IsSpace(s[n])
  {
    if s == [] || IsSpace(s[0]) then 0 else 1 + WordEnd(s[1..])
  }

  /** `s.split()`: the maximal runs of non-whitespace characters, in order. */
  function Words(s: string): (ws: seq<string>)
    ensures forall i :: 0 <= i < |ws| ==> IsWord(ws[i])
    decreases |s|
  {
    if s == [] then []
    else if IsSpace(s[0]) then Words(s[1..])
    else
      var n := WordEnd(s);
      [s[..n]] + Words(s[n..])
  }

  /** `sep.join(parts)`. */
  function Join(parts: seq<string>, sep: string): string {
    if |parts| == 0 then ""
    else if |parts| == 1 then parts[0]
    else parts[0] + sep + Join(parts[1..], sep)
  }

  lemma {:induction false} WordEndOfWord(w: string, rest: string)
    requires IsWord(w)
    requires rest == [] || IsSpace(rest[0])
    ensures WordEnd(w + rest) == |w|
  {
    var s := w + rest;
    assert s[0] == w[0];
    if |w| == 1 {
      assert s[1..] == rest;
    } else {
      assert s[1..] == w[1..] + rest;
      WordEndOfWord(w[1..], rest);
    }
  }

  /** Splitting words joined by single spaces gives the words back. */
  lemma {:induction false} WordsOfJoin(ws: seq<string>)
    requires forall i :: 0 <= i < |ws| ==> IsWord(ws[i])
    ensures Words(Join(ws, " ")) == ws
  {
    if |ws| == 1 {
      var w := ws[0];
      WordEndOfWord(w, []);
      assert w + [] == w;
      assert w[|w|..] == [];
    } else if |ws| > 1 {
      var w, rest := ws[0], Join(ws[1..], " ");
      var s := w + " " + rest;
      WordEndOfWord(w, " " + rest);
      assert s == w + (" " + rest);
      assert s[..|w|] == w;
      assert s[|w|..] == " " + rest;
      assert (" " + rest)[1..] == rest;
      WordsOfJoin(ws[1..]);
      assert Words(s) == [w] + Words(" " + rest);
    }
  }

  /** `sep.join(parts)` begins with the first part and ends with the last. */
  lemma {:induction false} JoinEnds(parts: seq<string>, sep: string)
    requires |parts| > 0
    ensures |parts[0]| <= |Join(parts, sep)| && Join(parts, sep)[..|parts[0]|] == parts[0]
    ensures |parts[|parts| - 1]| <= |Join(parts, sep)|
    ensures Join(parts, sep)[|Join(parts, sep)| - |parts[|parts| - 1]|..] == parts[|parts| - 1]
  {
    if |parts| > 1 {
      JoinEnds(parts[1..], sep);
      var tail := Join(parts[1..], sep);
      assert Join(parts, sep) == parts[0] + sep + tail;
      assert parts[|parts| - 1] == parts[1..][|parts[1..]| - 1];
    }
  }

  /** Every part of `sep.join(parts)` occurs in it. */
  lemma {:induction false} JoinContainsParts(parts: seq<string>, sep: string, i: nat)
    requires i < |parts|
    ensures Contains(Join(parts, sep), parts[i])
  {
    var s := Join(parts, sep);
    if i == 0 {
      JoinEnds(parts, sep);
      assert MatchesAt(s, parts[0], 0);
    } else {
      JoinContainsParts(parts[1..], sep, i - 1);
      var tail := Join(parts[1..], sep);
      var j :| 0 <= j <= |tail| - |parts[i]| && MatchesAt(tail, parts[i], j);
      var off := |parts[0]| + |sep|;
      assert s == parts[0] + sep + tail;
      assert s[off + j..off + j + |parts[i]|] == tail[j..j + |parts[i]|];
      assert MatchesAt(s, parts[i], off + j);
    }
  }

  /** A character that is in no part and not in the separator is not in the join. */
  lemma {:induction false} JoinAvoids(parts: seq<string>, sep: string, c: char)
    requires forall i :: 0 <= i < |parts| ==> c !in parts[i]
    requires c !in sep
    ensures c !in Join(parts, sep)
  {
    if |parts| > 1 {
      JoinAvoids(parts[1..], sep, c);
    }
  }
}
