/**
 * `fuzzyMatch` and `calculateScore`: a case-insensitive greedy subsequence
 * scan of the query over the text, and the additive score of the positions it
 * consumed. Scores are exact rationals (`real`).
 */
module Fuzzy {
  import opened Wrappers
  import opened Text

  /** `{ score, indices }`; the indices point into the lower-cased text. */
  datatype MatchResult = MatchResult(score: real, indices: seq<nat>)

  predicate Increasing(idx: seq<nat>) {
    forall i, j :: 0 <= i < j < |idx| ==> idx[i] < idx[j]
  }

  predicate InRange(idx: seq<nat>, t: string) {
    forall k :: 0 <= k < |idx| ==> idx[k] < |t|
  }

  /** `idx` places `q[qi..]`, in order, at positions of `t` from `ti` on. */
  ghost predicate EmbedsFrom(idx: seq<nat>, t: string, q: string, ti: nat, qi: nat)
    requires qi <= |q|
  {
    && |idx| == |q| - qi
    && Increasing(idx)
    && forall k :: 0 <= k < |idx| ==> ti <= idx[k] < |t| && t[idx[k]] == q[qi + k]
  }

  /** `q` is a (not necessarily contiguous) subsequence of `t`. */
  ghost predicate IsSubsequence(q: string, t: string) {
    exists idx :: EmbedsFrom(idx, t, q, 0, 0)
  }

  /**
   * The positions the scanning loop pushes when it starts with
   * `textIndex == ti` and `queryIndex == qi`.
   */
  function Scan(t: string, q: string, ti: nat, qi: nat): (r: seq<nat>)
    requires qi <= |q|
    ensures |r| <= |q| - qi
    ensures Increasing(r)
    ensures forall k :: 0 <= k < |r| ==> ti <= r[k] < |t| && t[r[k]] == q[qi + k]
    decreases |t| - ti
  {
    if qi < |q| && ti < |t| then
      if t[ti] == q[qi] then [ti] + Scan(t, q, ti + 1, qi + 1) else Scan(t, q, ti + 1, qi)
    else []
  }

  /** Where the scan may look for query character `qi + k` (just after the previous hit). */
  function SearchStart(r: seq<nat>, ti: nat, k: nat): nat
    requires k <= |r|
  {
    if k == 0 then ti else r[k - 1] + 1
  }

  /** Each hit of the scan is the earliest position, from where the scan may look, holding its character. */
  lemma {:induction false} ScanGreedyAt(t: string, q: string, ti: nat, qi: nat, k: nat, j: nat)
    requires qi <= |q|
    requires k < |Scan(t, q, ti, qi)|
    requires SearchStart(Scan(t, q, ti, qi), ti, k) <= j < Scan(t, q, ti, qi)[k]
    ensures t[j] != q[qi + k]
    decreases |t| - ti
  {
    var r := Scan(t, q, ti, qi);
    if t[ti] == q[qi] {
      var r' := Scan(t, q, ti + 1, qi + 1);
      assert r == [ti] + r';
      assert k != 0;
      assert r[k] == r'[k - 1];
      assert SearchStart(r, ti, k) == SearchStart(r', ti + 1, k - 1);
      ScanGreedyAt(t, q, ti + 1, qi + 1, k - 1, j);
      assert qi + k == (qi + 1) + (k - 1);
    } else {
      var r' := Scan(t, q, ti + 1, qi);
      assert r == r';
      if j != ti {
        assert k > 0 ==> r[k - 1] >= ti + 1;
        assert SearchStart(r', ti + 1, k) <= j;
        ScanGreedyAt(t, q, ti + 1, qi, k, j);
      }
    }
  }

  /** When the scan stops short of the query's end, the next query character occurs nowhere after the last hit. */
  lemma {:induction false} ScanExhausted(t: string, q: string, ti: nat, qi: nat, j: nat)
    requires qi <= |q|
    requires |Scan(t, q, ti, qi)| < |q| - qi
    requires SearchStart(Scan(t, q, ti, qi), ti, |Scan(t, q, ti, qi)|) <= j < |t|
    ensures t[j] != q[qi + |Scan(t, q, ti, qi)|]
    decreases |t| - ti
  {
    if ti < |t| && qi < |q| {
      if t[ti] == q[qi] {
        ScanHit(t, q, ti, qi);
        ScanExhausted(t, q, ti + 1, qi + 1, j);
      } else {
        ScanMiss(t, q, ti, qi);
        if j != ti {
          ScanExhausted(t, q, ti + 1, qi, j);
        }
      }
    }
  }

  /** A hit at `ti` is pushed, and the scan goes on after it with the next query character. */
  lemma ScanHit(t: string, q: string, ti: nat, qi: nat)
    requires ti < |t| && qi < |q| && t[ti] == q[qi]
    ensures Scan(t, q, ti, qi) == [ti] + Scan(t, q, ti + 1, qi + 1)
    ensures SearchStart(Scan(t, q, ti, qi), ti, |Scan(t, q, ti, qi)|)
      == SearchStart(Scan(t, q, ti + 1, qi + 1), ti + 1, |Scan(t, q, ti + 1, qi + 1)|)
  {
  }

  /** A miss at `ti` is skipped; whatever the scan finds later lies after `ti`. */
  lemma ScanMiss(t: string, q: string, ti: nat, qi: nat)
    requires ti < |t| && qi < |q| && t[ti] != q[qi]
    ensures Scan(t, q, ti, qi) == Scan(t, q, ti + 1, qi)
    ensures SearchStart(Scan(t, q, ti, qi), ti, |Scan(t, q, ti, qi)|) == ti
      || SearchStart(Scan(t, q, ti, qi), ti, |Scan(t, q, ti, qi)|)
         == SearchStart(Scan(t, q, ti + 1, qi), ti + 1, |Scan(t, q, ti + 1, qi)|)
  {
  }

  /** If any placement of `q[qi..]` exists from `ti` on, the greedy scan consumes all of it. */
  lemma {:induction false} ScanComplete(t: string, q: string, ti: nat, qi: nat, idx: seq<nat>)
    requires qi <= |q|
    requires EmbedsFrom(idx, t, q, ti, qi)
    ensures |Scan(t, q, ti, qi)| == |q| - qi
    decreases |t| - ti
  {
    if qi < |q| {
      assert idx[0] >= ti && idx[0] < |t|;
      if t[ti] == q[qi] {
        var rest := idx[1..];
        forall k | 0 <= k < |rest| ensures ti + 1 <= rest[k] < |t| && t[rest[k]] == q[qi + 1 + k] {
          assert rest[k] == idx[k + 1] && idx[0] < idx[k + 1];
        }
        ScanComplete(t, q, ti + 1, qi + 1, rest);
      } else {
        assert idx[0] != ti;
        forall k | 0 <= k < |idx| ensures ti + 1 <= idx[k] {
          assert k == 0 || idx[0] < idx[k];
        }
        ScanComplete(t, q, ti + 1, qi, idx);
      }
    }
  }

  // ---- calculateScore ----

  /** The number of pairs `idx[i - 1], idx[i]` with `i < n` that are adjacent positions. */
  function ConsecutivePairs(idx: seq<nat>, n: nat): nat
    requires n <= 1 || n <= |idx|
  {
    if n <= 1 then 0
    else ConsecutivePairs(idx, n - 1) + (if idx[n - 1] == idx[n - 2] + 1 then 1 else 0)
  }

  /** The characters `[' ', '-', '_', '/', '.']` after which a match starts a word. */
  predicate IsWordBoundary(c: char) {
    c == ' ' || c == '-' || c == '_' || c == '/' || c == '.'
  }

  /** +30 when the first position is the start of the text. */
  function StartBonus(idx: seq<nat>): nat {
    if |idx| > 0 && idx[0] == 0 then 30 else 0
  }

  /** +20 for each of the first `n` positions that follows a word boundary. */
  function BoundaryBonus(t: string, idx: seq<nat>, n: nat): nat
    requires n <= |idx| && InRange(idx, t)
  {
    if n == 0 then 0
    else BoundaryBonus(t, idx, n - 1) + (if idx[n - 1] > 0 && IsWordBoundary(t[idx[n - 1] - 1]) then 20 else 0)
  }

  /**
   * +20 for each of the first `n` positions whose character differs from its
   * lower-case form while the character before it equals its own.
   */
  function CamelBonus(t: string, idx: seq<nat>, n: nat): nat
    requires n <= |idx| && InRange(idx, t)
  {
    if n == 0 then 0
    else
      var i := idx[n - 1];
      CamelBonus(t, idx, n - 1) +
        (if i > 0 && LowerChar(t[i - 1]) == t[i - 1] && LowerChar(t[i]) != t[i] then 20 else 0)
  }

  /** `10 - i` for each of the first `n` positions `i` below 10. */
  function EarlyBonus(idx: seq<nat>, n: nat): nat
    requires n <= |idx|
  {
    if n == 0 then 0
    else EarlyBonus(idx, n - 1) + (if idx[n - 1] < 10 then 10 - idx[n - 1] else 0)
  }

  /** The score formula of `calculateScore`, term by term in the source's order. */
  function Score(t: string, q: string, idx: seq<nat>): real
    requires |t| > 0 && InRange(idx, t)
  {
    (100 - |t|) as real
    + (15 * ConsecutivePairs(idx, |idx|)) as real
    + StartBonus(idx) as real
    + BoundaryBonus(t, idx, |idx|) as real
    + CamelBonus(t, idx, |idx|) as real
    + EarlyBonus(idx, |idx|) as real
    + (|q| as real / |t| as real) * 50.0
  }

  /** `calculateScore(text, query, indices)`, with its accumulating loops. */
  method CalculateScore(t: string, q: string, indices: seq<nat>) returns (score: real)
    requires |t| > 0 && InRange(indices, t)
    ensures score == Score(t, q, indices)
  {
    score := 0.0;
    score := score + (100 - |t|) as real;
    var base := score;
    score := AddAdjacency(score, indices);
    if |indices| > 0 && indices[0] == 0 {
      score := score + 30.0;
    }
    score := AddBoundaries(score, t, indices);
    score := AddEarly(score, indices);
    var coverage := |q| as real / |t| as real;
    ScoreTotal(t, q, indices, base, score, coverage);
    score := score + coverage * 50.0;
  }

  /** The loop adding 15 for each position right after the previous one. */
  method AddAdjacency(score0: real, indices: seq<nat>) returns (score: real)
    ensures score == score0 + (15 * ConsecutivePairs(indices, |indices|)) as real
  {
    score := score0;
    // The source also keeps a run counter here that nothing reads.
    var i := 1;
    while i < |indices|
      invariant 1 <= i && (i <= 1 || i <= |indices|)
      invariant score == score0 + (15 * ConsecutivePairs(indices, i)) as real
    {
      if indices[i] == indices[i - 1] + 1 {
        score := score + 15.0;
      }
      i := i + 1;
    }
    assert ConsecutivePairs(indices, i) == ConsecutivePairs(indices, |indices|);
  }

  /** The loop adding 20 after a word boundary and 20 at a case transition. */
  method AddBoundaries(score0: real, t: string, indices: seq<nat>) returns (score: real)
    requires InRange(indices, t)
    ensures score == score0 + BoundaryBonus(t, indices, |indices|) as real + CamelBonus(t, indices, |indices|) as real
  {
    score := score0;
    var k := 0;
    while k < |indices|
      invariant k <= |indices|
      invariant score == score0 + BoundaryBonus(t, indices, k) as real + CamelBonus(t, indices, k) as real
    {
      var idx := indices[k];
      if idx > 0 && IsWordBoundary(t[idx - 1]) {
        score := score + 20.0;
      }
      if idx > 0 && LowerChar(t[idx - 1]) == t[idx - 1] && LowerChar(t[idx]) != t[idx] {
        score := score + 20.0;
      }
      k := k + 1;
    }
  }

  /** The loop adding `10 - i` for each position `i` below 10. */
  method AddEarly(score0: real, indices: seq<nat>) returns (score: real)
    ensures score == score0 + EarlyBonus(indices, |indices|) as real
  {
    score := score0;
    var k := 0;
    while k < |indices|
      invariant k <= |indices|
      invariant score == score0 + EarlyBonus(indices, k) as real
    {
      if indices[k] < 10 {
        score := score + (10 - indices[k]) as real;
      }
      k := k + 1;
    }
  }

  /** The terms `calculateScore` accumulates add up to the score formula. */
  lemma ScoreTotal(t: string, q: string, idx: seq<nat>, base: real, sum: real, coverage: real)
    requires |t| > 0 && InRange(idx, t)
    requires base == (100 - |t|) as real && coverage == |q| as real / |t| as real
    requires sum == base + (15 * ConsecutivePairs(idx, |idx|)) as real + StartBonus(idx) as real
      + BoundaryBonus(t, idx, |idx|) as real + CamelBonus(t, idx, |idx|) as real + EarlyBonus(idx, |idx|) as real
    ensures sum + coverage * 50.0 == Score(t, q, idx)
  {
  }

  // ---- fuzzyMatch ----

  /** What `fuzzyMatch(text, query)` returns; `None` stands for `null`. */
  function Match(text: string, query: string): Option<MatchResult> {
    if |query| == 0 then Some(MatchResult(0.0, []))
    else
      var t, q := Lower(text), Lower(query);
      var idx := Scan(t, q, 0, 0);
      if |idx| != |q| then None else Some(MatchResult(Score(t, q, idx), idx))
  }

  /** `fuzzyMatch`, with its scanning `while` loop. */
  method FuzzyMatch(text: string, query: string) returns (r: Option<MatchResult>)
    ensures r == Match(text, query)
  {
    if |query| == 0 {
      return Some(MatchResult(0.0, []));
    }
    var t := Lower(text);
    var q := Lower(query);
    var indices: seq<nat> := [];
    var textIndex: nat := 0;
    var queryIndex: nat := 0;
    while queryIndex < |q| && textIndex < |t|
      invariant queryIndex <= |q| && textIndex <= |t|
      invariant queryIndex == |indices|
      invariant indices + Scan(t, q, textIndex, queryIndex) == Scan(t, q, 0, 0)
      decreases |t| - textIndex
    {
      if t[textIndex] == q[queryIndex] {
        assert Scan(t, q, textIndex, queryIndex) == [textIndex] + Scan(t, q, textIndex + 1, queryIndex + 1);
        assert indices + ([textIndex] + Scan(t, q, textIndex + 1, queryIndex + 1))
            == (indices + [textIndex]) + Scan(t, q, textIndex + 1, queryIndex + 1);
        indices := indices + [textIndex];
        queryIndex := queryIndex + 1;
      }
      textIndex := textIndex + 1;
    }
    assert indices + [] == indices;
    if queryIndex != |q| {
      return None;
    }
    var score := CalculateScore(t, q, indices);
    return Some(MatchResult(score, indices));
  }

  // ---- properties ----

  /**
   * An empty query matches with score 0 and no positions; otherwise there is a
   * match exactly when the lower-cased query is a subsequence of the lower-cased text.
   */
  lemma MatchSucceedsIff(text: string, query: string)
    ensures |query| == 0 ==> Match(text, query) == Some(MatchResult(0.0, []))
    ensures |query| > 0 ==> (Match(text, query).Some? <==> IsSubsequence(Lower(query), Lower(text)))
  {
    if |query| > 0 {
      var t, q := Lower(text), Lower(query);
      var idx := Scan(t, q, 0, 0);
      if |idx| == |q| {
        assert EmbedsFrom(idx, t, q, 0, 0);
      }
      if IsSubsequence(q, t) {
        var w :| EmbedsFrom(w, t, q, 0, 0);
        ScanComplete(t, q, 0, 0, w);
      }
    }
  }

  /**
   * A successful match has one position per query character, strictly
   * increasing, each holding that character of the lower-cased text, and each
   * the earliest such position after the previous one.
   */
  lemma MatchPositions(text: string, query: string)
    requires Match(text, query).Some?
    ensures var idx := Match(text, query).value.indices;
      && |idx| == |query|
      && Increasing(idx)
      && (forall k :: 0 <= k < |idx| ==> idx[k] < |text| && Lower(text)[idx[k]] == Lower(query)[k])
      && (forall k, j :: 0 <= k < |idx| && SearchStart(idx, 0, k) <= j < idx[k] ==> Lower(text)[j] != Lower(query)[k])
  {
    if |query| > 0 {
      var t, q := Lower(text), Lower(query);
      var idx := Scan(t, q, 0, 0);
      forall k, j | 0 <= k < |idx| && SearchStart(idx, 0, k) <= j < idx[k]
        ensures t[j] != q[k]
      {
        ScanGreedyAt(t, q, 0, 0, k, j);
      }
    }
  }

  /** The case-transition test compares already folded characters, so it never adds anything. */
  lemma {:induction false} CamelBonusInert(s: string, idx: seq<nat>, n: nat)
    requires n <= |idx| && InRange(idx, Lower(s))
    ensures CamelBonus(Lower(s), idx, n) == 0
  {
    if n > 0 {
      CamelBonusInert(s, idx, n - 1);
      LowerCharIdempotent(s[idx[n - 1]]);
    }
  }

  /**
   * The score of a successful non-empty match, with the inert case-transition
   * term dropped: base, adjacency, start, word-boundary, early-position and
   * coverage terms over the lower-cased text of length L.
   */
  lemma MatchScore(text: string, query: string)
    requires |query| > 0 && Match(text, query).Some?
    ensures var m := Match(text, query).value; var t := Lower(text);
      && |text| > 0 && InRange(m.indices, t)
      && m.score == (100 - |text|) as real
                    + (15 * ConsecutivePairs(m.indices, |m.indices|)) as real
                    + StartBonus(m.indices) as real
                    + BoundaryBonus(t, m.indices, |m.indices|) as real
                    + EarlyBonus(m.indices, |m.indices|) as real
                    + (|query| as real / |text| as real) * 50.0
  {
    var idx := Scan(Lower(text), Lower(query), 0, 0);
    CamelBonusInert(text, idx, |idx|);
  }

  lemma LowerOfLowercase(s: string)
    requires forall i :: 0 <= i < |s| ==> !('A' <= s[i] <= 'Z')
    ensures Lower(s) == s
  {
  }

  /** "abc" against itself: 97 + 30 (two adjacent pairs) + 30 (start) + 27 (early) + 50 (coverage). */
  lemma ExactMatchScore()
    ensures Match("abc", "abc") == Some(MatchResult(234.0, [0, 1, 2]))
  {
    var t := Lower("abc");
    assert t == "abc";
    var idx := Scan(t, t, 0, 0);
    assert Scan(t, t, 3, 3) == [];
    assert Scan(t, t, 2, 2) == [2];
    assert Scan(t, t, 1, 1) == [1, 2];
    assert idx == [0, 1, 2];
    assert ConsecutivePairs(idx, 2) == 1;
    assert ConsecutivePairs(idx, 3) == 2;
    assert BoundaryBonus(t, idx, 1) == 0;
    assert BoundaryBonus(t, idx, 2) == 0;
    assert BoundaryBonus(t, idx, 3) == 0;
    assert CamelBonus(t, idx, 1) == 0;
    assert CamelBonus(t, idx, 2) == 0;
    assert CamelBonus(t, idx, 3) == 0;
    assert EarlyBonus(idx, 1) == 10;
    assert EarlyBonus(idx, 2) == 19;
    assert EarlyBonus(idx, 3) == 27;
  }

  lemma LongerTextPositions(t: string, q: string)
    requires t == "xabcxxxxxxxxxxxxxxxxxxxx" && q == "abc"
    ensures Scan(t, q, 0, 0) == [1, 2, 3]
  {
    assert Scan(t, q, 4, 3) == [];
    assert Scan(t, q, 3, 2) == [3];
    assert Scan(t, q, 2, 1) == [2, 3];
    assert Scan(t, q, 1, 0) == [1, 2, 3];
  }

  lemma LongerTextTerms(t: string, idx: seq<nat>)
    requires t == "xabcxxxxxxxxxxxxxxxxxxxx" && idx == [1, 2, 3]
    ensures ConsecutivePairs(idx, 3) == 2 && StartBonus(idx) == 0
    ensures BoundaryBonus(t, idx, 3) == 0 && CamelBonus(t, idx, 3) == 0 && EarlyBonus(idx, 3) == 24
  {
    assert ConsecutivePairs(idx, 2) == 1;
    assert BoundaryBonus(t, idx, 1) == 0;
    assert BoundaryBonus(t, idx, 2) == 0;
    assert CamelBonus(t, idx, 1) == 0;
    assert CamelBonus(t, idx, 2) == 0;
    assert EarlyBonus(idx, 1) == 9;
    assert EarlyBonus(idx, 2) == 17;
  }

  /**
   * "abc" in a 24-character text, matched at 1..3:
   * 76 + 30 (two adjacent pairs) + 24 (early) + 6.25 (coverage), less than 234.
   */
  lemma LongerTextScore()
    ensures Match("xabcxxxxxxxxxxxxxxxxxxxx", "abc") == Some(MatchResult(136.25, [1, 2, 3]))
  {
    var t := "xabcxxxxxxxxxxxxxxxxxxxx";
    var q := "abc";
    LowerOfLowercase(t);
    LowerOfLowercase(q);
    LongerTextPositions(t, q);
    LongerTextValue(t, q, [1, 2, 3]);
    MatchOf(t, q, t, q, [1, 2, 3], 136.25);
  }

  lemma LongerTextValue(t: string, q: string, idx: seq<nat>)
    requires t == "xabcxxxxxxxxxxxxxxxxxxxx" && q == "abc" && idx == [1, 2, 3]
    ensures InRange(idx, t) && Score(t, q, idx) == 136.25
  {
    assert |t| == 24;
    LongerTextTerms(t, idx);
    assert (3 as real / 24 as real) * 50.0 == 6.25;
  }

  /** `fuzzyMatch` succeeds with `score` when the scan of the lower-cased strings places the whole query. */
  lemma MatchOf(text: string, query: string, t: string, q: string, idx: seq<nat>, score: real)
    requires |query| > 0 && Lower(text) == t && Lower(query) == q
    requires Scan(t, q, 0, 0) == idx && |idx| == |q|
    requires |t| > 0 && InRange(idx, t) && Score(t, q, idx) == score
    ensures Match(text, query) == Some(MatchResult(score, idx))
  {
  }
}
