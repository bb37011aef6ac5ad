/**
 * The two scoring fidelities of app.js: `quickScore` (containment and word
 * overlap, capped at 80) and `detailedScore` (per-token containment or best
 * edit-distance similarity, rounded mean). Scores are exact reals.
 */
module Scoring {
  import opened Text
  import opened EditDistance

  /** `Math.round` on a non-negative value: halves round up. */
  function Round(x: real): (r: int)
    requires x >= 0.0
    ensures r >= 0
    ensures x - 0.5 < r as real <= x + 0.5
  {
    (x + 0.5).Floor
  }

  /** A count out of a positive total is a fraction between 0 and 1. */
  lemma FractionBound(m: nat, n: nat)
    requires 0 < n && m <= n
    ensures 0.0 <= m as real / n as real <= 1.0
  {
    var x := m as real / n as real;
    assert x * n as real == m as real;
  }

  /** The mean of `n` scores that each lie in [0, 100] lies in [0, 100]. */
  lemma MeanBound(total: real, n: nat)
    requires 0 < n && 0.0 <= total <= 100.0 * n as real
    ensures 0.0 <= total / n as real <= 100.0
  {
    var x := total / n as real;
    assert x * n as real == total;
  }

  // ---- quickScore ----

  /** How many of the first `n` words occur in `text`. */
  function CountContained(words: seq<string>, n: nat, text: string): (c: nat)
    requires n <= |words|
    ensures c <= n
  {
    if n == 0 then 0
    else CountContained(words, n - 1, text) + (if Contains(text, words[n - 1]) then 1 else 0)
  }

  /** What `quickScore(query, text)` returns. */
  function QuickScoreOf(query: string, text: string): (r: real)
    ensures 0.0 <= r <= 100.0
    ensures r == 100.0 || r <= 80.0
  {
    QuickScoreNormal(Trim(Lower(query)), Lower(text))
  }

  /** `quickScore` once the query is lower-cased and trimmed and the text lower-cased. */
  function QuickScoreNormal(q: string, t: string): (r: real)
    ensures 0.0 <= r <= 100.0
    ensures r == 100.0 || r <= 80.0
  {
    if q == [] || t == [] then 0.0
    else if Contains(t, q) then 100.0
    else
      var qWords := Tokens(q);
      if |qWords| == 0 then 0.0
      else
        var matches := CountContained(qWords, |qWords|, t);
        FractionBound(matches, |qWords|);
        (matches as real / |qWords| as real) * 80.0
  }

  method QuickScore(query: string, text: string) returns (r: real)
    ensures r == QuickScoreOf(query, text)
  {
    var q := Trim(Lower(query));
    var t := Lower(text);
    assert QuickScoreOf(query, text) == QuickScoreNormal(q, t);
    if q == [] || t == [] { return 0.0; }
    if Contains(t, q) { return 100.0; }
    var qWords := Tokens(q);
    if |qWords| == 0 { return 0.0; }
    var matches := 0;
    for k := 0 to |qWords|
      invariant matches == CountContained(qWords, k, t)
    {
      if Contains(t, qWords[k]) {
        matches := matches + 1;
      }
    }
    r := (matches as real / |qWords| as real) * 80.0;
  }

  // ---- detailedScore ----

  /** `Math.max(0, (1 - dist / maxLen) * 100)` for a query token and a text token. */
  function Similarity(qw: string, tw: string): (r: real)
    requires |qw| >= 2
    ensures 0.0 <= r <= 100.0
  {
    var dist := FastDistance(qw, tw);
    var maxLen := Max(|qw|, |tw|);
    FastDistanceSound(qw, tw);
    FractionBound(dist, maxLen);
    var raw := (1.0 - dist as real / maxLen as real) * 100.0;
    if raw > 0.0 then raw else 0.0
  }

  /** The pruning test: the lengths differ by at most 3. */
  predicate Comparable(qw: string, tw: string) {
    Gap(|qw|, |tw|) <= 3
  }

  /** The scan for the best matching text token, from `best` onwards: tokens
      that are not comparable are skipped, and the scan stops as soon as the
      best score reaches 90. */
  function BestFrom(qw: string, tws: seq<string>, best: real): (r: real)
    requires |qw| >= 2
    requires 0.0 <= best <= 100.0
    ensures best <= r <= 100.0
    decreases |tws|
  {
    if tws == [] then best
    else if !Comparable(qw, tws[0]) then BestFrom(qw, tws[1..], best)
    else
      var score := Similarity(qw, tws[0]);
      var b := if score > best then score else best;
      if b >= 90.0 then b else BestFrom(qw, tws[1..], b)
  }

  /** One query token's contribution: 100 when the text contains it, the best
      similarity otherwise. */
  function Contribution(qw: string, t: string, tws: seq<string>): (r: real)
    requires |qw| >= 2
    ensures 0.0 <= r <= 100.0
  {
    if Contains(t, qw) then 100.0 else BestFrom(qw, tws, 0.0)
  }

  /** The sum of the contributions of the first `n` query tokens. */
  function SumContributions(qWords: seq<string>, n: nat, t: string, tws: seq<string>): (r: real)
    requires n <= |qWords| && forall w :: w in qWords ==> |w| >= 2
    ensures 0.0 <= r <= 100.0 * n as real
  {
    if n == 0 then 0.0
    else SumContributions(qWords, n - 1, t, tws) + Contribution(qWords[n - 1], t, tws)
  }

  /** What `detailedScore(query, text)` returns. */
  function DetailedScoreOf(query: string, text: string): (r: real)
    ensures 0.0 <= r <= 100.0
    ensures r == r.Floor as real
  {
    DetailedScoreNormal(Trim(Lower(query)), Lower(text))
  }

  /** `detailedScore` once the query is lower-cased and trimmed and the text
      lower-cased. Its fallback calls `quickScore` on the normalised `q` and
      `t`, which normalises them once more without changing them
      (`QuickScoreOfNormalised`). */
  function DetailedScoreNormal(q: string, t: string): (r: real)
    ensures 0.0 <= r <= 100.0
    ensures r == r.Floor as real
  {
    if q == [] || t == [] then 0.0
    else if Contains(t, q) then 100.0
    else
      var qWords := Tokens(q);
      if |qWords| == 0 then QuickScoreNormal(q, t)
      else
        TokensAreLong(q);
        RoundedMean(qWords, t)
  }

  /** `Math.round(totalScore / qWords.length)`: the rounded mean of the
      contributions of the query tokens. */
  function RoundedMean(qWords: seq<string>, t: string): (r: real)
    requires |qWords| > 0 && forall w :: w in qWords ==> |w| >= 2
    ensures 0.0 <= r <= 100.0
    ensures r == r.Floor as real
  {
    var total := SumContributions(qWords, |qWords|, t, Tokens(t));
    MeanBound(total, |qWords|);
    Round(total / |qWords| as real) as real
  }

  method DetailedScore(query: string, text: string) returns (r: real)
    ensures r == DetailedScoreOf(query, text)
  {
    var q := Trim(Lower(query));
    var t := Lower(text);
    assert DetailedScoreOf(query, text) == DetailedScoreNormal(q, t);
    if q == [] || t == [] { return 0.0; }
    if Contains(t, q) { return 100.0; }
    var qWords := Tokens(q);
    if |qWords| == 0 {
      r := QuickScore(q, t);
      QuickScoreOfNormalised(query, text);
      return;
    }
    var textWords := Tokens(t);
    TokensAreLong(q);
    var totalScore := 0.0;
    for k := 0 to |qWords|
      invariant totalScore == SumContributions(qWords, k, t, textWords)
    {
      var qw := qWords[k];
      if Contains(t, qw) {
        totalScore := totalScore + 100.0;
      } else {
        var bestMatch := BestMatch(qw, textWords);
        totalScore := totalScore + bestMatch;
      }
    }
    MeanOfContributions(qWords, t, totalScore);
    r := Round(totalScore / |qWords| as real) as real;
  }

  lemma MeanOfContributions(qWords: seq<string>, t: string, total: real)
    requires |qWords| > 0 && forall w :: w in qWords ==> |w| >= 2
    requires total == SumContributions(qWords, |qWords|, t, Tokens(t))
    ensures 0.0 <= total / |qWords| as real <= 100.0
    ensures RoundedMean(qWords, t) == Round(total / |qWords| as real) as real
  {
    MeanBound(total, |qWords|);
  }

  /** The inner loop of `detailedScore`: scans the text tokens for the best
      match of one query token. */
  method BestMatch(qw: string, textWords: seq<string>) returns (bestMatch: real)
    requires |qw| >= 2
    ensures bestMatch == BestFrom(qw, textWords, 0.0)
  {
    bestMatch := 0.0;
    var j := 0;
    while j < |textWords|
      invariant 0 <= j <= |textWords|
      invariant 0.0 <= bestMatch < 90.0
      invariant BestFrom(qw, textWords[j..], bestMatch) == BestFrom(qw, textWords, 0.0)
    {
      var tw := textWords[j];
      assert textWords[j..][1..] == textWords[j + 1..];
      if Gap(|qw|, |tw|) <= 3 {
        var dist := LevenshteinFast(qw, tw);
        var maxLen := Max(|qw|, |tw|);
        var raw := (1.0 - dist as real / maxLen as real) * 100.0;
        var score := if raw > 0.0 then raw else 0.0;
        assert score == Similarity(qw, tw);
        if score > bestMatch {
          bestMatch := score;
        }
        if bestMatch >= 90.0 {
          break;
        }
      }
      j := j + 1;
    }
  }

  // ---- Properties of quickScore ----

  /** Full marks exactly when the (non-empty) normalised text contains the
      whole (non-empty) normalised query; every other outcome is at most 80,
      and an empty normalised query or text scores 0. */
  lemma QuickScoreFull(query: string, text: string)
    ensures var q, t := Trim(Lower(query)), Lower(text);
      (QuickScoreOf(query, text) == 100.0 <==> q != [] && t != [] && Contains(t, q))
      && (QuickScoreOf(query, text) != 100.0 ==> QuickScoreOf(query, text) <= 80.0)
      && (q == [] || t == [] ==> QuickScoreOf(query, text) == 0.0)
  {
    var q, t := Trim(Lower(query)), Lower(text);
    if q != [] && t != [] && !Contains(t, q) && |Tokens(q)| > 0 {
      FractionBound(CountContained(Tokens(q), |Tokens(q)|, t), |Tokens(q)|);
    }
  }

  lemma {:induction false} CountAllContained(words: seq<string>, n: nat, text: string)
    requires n <= |words|
    requires forall i :: 0 <= i < n ==> Contains(text, words[i])
    ensures CountContained(words, n, text) == n
  {
    if n > 0 {
      CountAllContained(words, n - 1, text);
    }
  }

  /** When the text lacks the whole query but holds each of its tokens, the
      quick score is the cap of 80. */
  lemma QuickScoreAllTokens(query: string, text: string)
    requires var q, t := Trim(Lower(query)), Lower(text);
      q != [] && t != [] && !Contains(t, q) && |Tokens(q)| > 0
      && forall w :: w in Tokens(q) ==> Contains(t, w)
    ensures QuickScoreOf(query, text) == 80.0
  {
    var q, t := Trim(Lower(query)), Lower(text);
    QuickScoreNormalAllTokens(q, t);
  }

  lemma QuickScoreNormalAllTokens(q: string, t: string)
    requires q != [] && t != [] && !Contains(t, q) && |Tokens(q)| > 0
    requires forall w :: w in Tokens(q) ==> Contains(t, w)
    ensures QuickScoreNormal(q, t) == 80.0
  {
    var qWords := Tokens(q);
    var n := |qWords|;
    CountAllContained(qWords, n, t);
    assert QuickScoreNormal(q, t) == (CountContained(qWords, n, t) as real / n as real) * 80.0;
    WholeFraction(n);
  }

  lemma WholeFraction(n: nat)
    requires n > 0
    ensures (n as real / n as real) * 80.0 == 80.0
  {
  }

  /** Normalising an already normalised query and text changes nothing, so
      the fallback `quickScore(query, text)` at the end of `detailedScore`
      scores the normalised pair as `QuickScoreNormal` does. */
  lemma QuickScoreOfNormalised(query: string, text: string)
    ensures var q, t := Trim(Lower(query)), Lower(text);
      QuickScoreOf(q, t) == QuickScoreNormal(q, t)
  {
    LowerIdempotent(query);
    LowerIdempotent(text);
    LowerTrim(Lower(query));
    TrimIsTrimmed(Lower(query));
  }

  /** A query without a token of two or more characters scores 0 unless the
      text contains it whole. */
  lemma QuickScoreNoTokens(query: string, text: string)
    requires |Tokens(Trim(Lower(query)))| == 0
    ensures var q, t := Trim(Lower(query)), Lower(text);
      QuickScoreOf(query, text) == if q != [] && t != [] && Contains(t, q) then 100.0 else 0.0
  {
  }

  // ---- Properties of the token similarity ----

  /** For tokens that pass the pruning test, the short-circuit of
      `levenshteinFast` never fires and the clamp at 0 never bites: the
      similarity is exactly one minus the relative Levenshtein distance. */
  lemma SimilarityExact(qw: string, tw: string)
    requires |qw| >= 2 && Comparable(qw, tw)
    ensures Similarity(qw, tw)
         == (1.0 - Lev(qw, tw) as real / Max(|qw|, |tw|) as real) * 100.0
  {
    FastDistanceSound(qw, tw);
    FractionBound(Lev(qw, tw), Max(|qw|, |tw|));
  }

  /** A text token scores 100 exactly when it equals the query token. */
  lemma SimilarityFull(qw: string, tw: string)
    requires |qw| >= 2 && Comparable(qw, tw)
    ensures Similarity(qw, tw) == 100.0 <==> qw == tw
  {
    SimilarityExact(qw, tw);
    LevZeroIffEqual(qw, tw);
    var m := Max(|qw|, |tw|) as real;
    var d := Lev(qw, tw) as real;
    if Similarity(qw, tw) == 100.0 {
      assert d / m == 0.0;
      assert d == (d / m) * m;
    }
  }

  /** The scan's result is the starting value or the similarity of a text
      token that passes the pruning test. */
  lemma {:induction false} BestFromFound(qw: string, tws: seq<string>, best: real)
    requires |qw| >= 2 && 0.0 <= best <= 100.0
    ensures var r := BestFrom(qw, tws, best);
      r == best || exists tw :: tw in tws && Comparable(qw, tw) && r == Similarity(qw, tw)
    decreases |tws|
  {
    if tws != [] {
      assert forall tw :: tw in tws[1..] ==> tw in tws;
      if !Comparable(qw, tws[0]) {
        BestFromFound(qw, tws[1..], best);
      } else {
        var score := Similarity(qw, tws[0]);
        var b := if score > best then score else best;
        if b < 90.0 {
          BestFromFound(qw, tws[1..], b);
        }
      }
    }
  }

  /** When the scan ends below the good-enough mark of 90 it never stopped
      early, so its result is the best similarity over every text token that
      passes the pruning test. */
  lemma {:induction false} BestFromExhaustive(qw: string, tws: seq<string>, best: real)
    requires |qw| >= 2 && 0.0 <= best <= 100.0
    requires BestFrom(qw, tws, best) < 90.0
    ensures forall tw :: tw in tws && Comparable(qw, tw) ==> Similarity(qw, tw) <= BestFrom(qw, tws, best)
    decreases |tws|
  {
    if tws != [] {
      var score := Similarity(qw, tws[0]);
      var b := if score > best then score else best;
      if !Comparable(qw, tws[0]) {
        BestFromExhaustive(qw, tws[1..], best);
      } else {
        BestFromExhaustive(qw, tws[1..], b);
      }
      assert forall tw :: tw in tws ==> tw == tws[0] || tw in tws[1..];
    }
  }

  // ---- Properties of detailedScore ----

  /** Full containment gives 100; an empty query or text, or a query with no
      token of two or more characters that the text does not contain whole,
      gives 0 (the fallback to `quickScore` can only yield 0 there). */
  lemma DetailedScoreEdgeCases(query: string, text: string)
    ensures var q, t := Trim(Lower(query)), Lower(text);
      && (q != [] && t != [] && Contains(t, q) ==> DetailedScoreOf(query, text) == 100.0)
      && (q == [] || t == [] ==> DetailedScoreOf(query, text) == 0.0)
      && (|Tokens(q)| == 0 && !Contains(t, q) ==> DetailedScoreOf(query, text) == 0.0)
  {
  }

  lemma {:induction false} SumAllContained(qWords: seq<string>, n: nat, t: string, tws: seq<string>)
    requires n <= |qWords| && forall w :: w in qWords ==> |w| >= 2
    requires forall i :: 0 <= i < n ==> Contains(t, qWords[i])
    ensures SumContributions(qWords, n, t, tws) == 100.0 * n as real
  {
    if n > 0 {
      SumAllContained(qWords, n - 1, t, tws);
    }
  }

  /** When the text contains every query token, the detailed score is 100
      even if the tokens are not adjacent in the text. */
  lemma DetailedScoreAllTokens(query: string, text: string)
    requires var q, t := Trim(Lower(query)), Lower(text);
      q != [] && t != [] && |Tokens(q)| > 0 && forall w :: w in Tokens(q) ==> Contains(t, w)
    ensures DetailedScoreOf(query, text) == 100.0
  {
    var q, t := Trim(Lower(query)), Lower(text);
    DetailedScoreNormalAllTokens(q, t);
  }

  lemma DetailedScoreNormalAllTokens(q: string, t: string)
    requires q != [] && t != [] && |Tokens(q)| > 0
    requires forall w :: w in Tokens(q) ==> Contains(t, w)
    ensures DetailedScoreNormal(q, t) == 100.0
  {
    if !Contains(t, q) {
      var qWords := Tokens(q);
      TokensAreLong(q);
      RoundedMeanAllContained(qWords, t);
    }
  }

  lemma RoundedMeanAllContained(qWords: seq<string>, t: string)
    requires |qWords| > 0 && forall w :: w in qWords ==> |w| >= 2
    requires forall w :: w in qWords ==> Contains(t, w)
    ensures RoundedMean(qWords, t) == 100.0
  {
    var n := |qWords|;
    SumAllContained(qWords, n, t, Tokens(t));
    var total := SumContributions(qWords, n, t, Tokens(t));
    assert total / n as real == 100.0;
  }

  /** A text that contains a trimmed, non-empty query verbatim gives full
      marks in both fidelities, whatever the letter case. */
  lemma ContainedQueryScoresFull(query: string, text: string)
    requires query != [] && Trim(query) == query && Contains(text, query)
    ensures QuickScoreOf(query, text) == 100.0
    ensures DetailedScoreOf(query, text) == 100.0
  {
    LowerTrim(query);
    ContainsLower(text, query);
    assert |Lower(text)| >= |Lower(query)| > 0;
  }
}
