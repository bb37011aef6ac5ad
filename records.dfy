/**
 * Per-record aggregation (app.js): the text a clue is matched against, and
 * the mean of the per-clue scores over the clue list in both fidelities.
 */
module RecordMatcher {
  import opened Wrappers
  import opened Text
  import opened Scoring

  /** Which part of a record a clue is matched against: the question text
      (`"q"`) or the answer options (every other target value). */
  datatype Target = Q | A

  /** A clue: its trimmed text and its target. */
  datatype Clue = Clue(text: string, target: Target)

  /** A corpus record, reduced to the fields the ranking reads: the question
      text and the option values in `Object.values` order (the field may be
      missing). */
  datatype Record = Record(questionText: string, options: Option<seq<string>>)

  /** The separator `getSearchText` joins the option values with. */
  const OptionSeparator: string := " | "

  /** `getSearchText(q, target)`: the question side is the question text;
      the answer side holds every option value verbatim. */
  function SearchText(r: Record, target: Target): (text: string)
    ensures target == A && r.options.Some? ==>
      forall o :: o in r.options.value ==> Contains(text, o)
  {
    match target
    case Q => r.questionText
    case A =>
      if r.options.Some? then
        JoinContainsEach(r.options.value, OptionSeparator);
        Join(r.options.value, OptionSeparator)
      else ""
  }

  // ---- Means of per-clue scores ----

  /** The sum of the first `n` scores, added from the left. */
  function Total(xs: seq<real>, n: nat): real
    requires n <= |xs|
  {
    if n == 0 then 0.0 else Total(xs, n - 1) + xs[n - 1]
  }

  /** Every score lies in [0, 100]. */
  predicate InRange(xs: seq<real>) {
    forall i :: 0 <= i < |xs| ==> 0.0 <= xs[i] <= 100.0
  }

  /** The arithmetic mean of a non-empty list of scores. */
  function Mean(xs: seq<real>): real
    requires |xs| > 0
  {
    Total(xs, |xs|) / |xs| as real
  }

  // ---- quickScoreQuestion ----

  /** The quick score of one clue against a record. */
  function ClueQuickScore(r: Record, c: Clue): (s: real)
    ensures 0.0 <= s <= 100.0
  {
    QuickScoreOf(c.text, SearchText(r, c.target))
  }

  /** The quick score of every clue, in clue order. */
  function QuickScores(r: Record, clues: seq<Clue>): (xs: seq<real>)
    ensures |xs| == |clues| && InRange(xs)
    ensures forall i :: 0 <= i < |clues| ==> xs[i] == ClueQuickScore(r, clues[i])
  {
    seq(|clues|, i requires 0 <= i < |clues| => ClueQuickScore(r, clues[i]))
  }

  /** What `quickScoreQuestion(q)` returns: 0 without clues, otherwise the
      mean of the clues' quick scores. */
  function QuickScoreQuestionOf(r: Record, clues: seq<Clue>): real {
    if |clues| == 0 then 0.0 else Mean(QuickScores(r, clues))
  }

  method QuickScoreQuestion(r: Record, clues: seq<Clue>) returns (s: real)
    ensures s == QuickScoreQuestionOf(r, clues)
  {
    if |clues| == 0 { return 0.0; }
    ghost var scores := QuickScores(r, clues);
    var total := 0.0;
    for i := 0 to |clues|
      invariant total == Total(scores, i)
    {
      var clue := clues[i];
      var score := QuickScore(clue.text, SearchText(r, clue.target));
      assert score == scores[i];
      total := total + score;
    }
    s := total / |clues| as real;
  }

  // ---- detailedScoreQuestion ----

  /** The result of `detailedScoreQuestion`: the mean, and the score of each
      clue keyed by its position in the clue list. */
  datatype Detail = Detail(total: real, clueScores: map<nat, real>)

  /** The detailed score of one clue against a record. */
  function ClueDetailedScore(r: Record, c: Clue): (s: real)
    ensures 0.0 <= s <= 100.0
  {
    DetailedScoreOf(c.text, SearchText(r, c.target))
  }

  /** The detailed score of every clue, in clue order. */
  function DetailedScores(r: Record, clues: seq<Clue>): (xs: seq<real>)
    ensures |xs| == |clues| && InRange(xs)
    ensures forall i :: 0 <= i < |clues| ==> xs[i] == ClueDetailedScore(r, clues[i])
  {
    seq(|clues|, i requires 0 <= i < |clues| => ClueDetailedScore(r, clues[i]))
  }

  /** The first `n` scores, keyed by position. */
  function Keyed(xs: seq<real>, n: nat): map<nat, real>
    requires n <= |xs|
  {
    map i: nat | i < n :: xs[i]
  }

  /** Keying one more score adds one entry. */
  lemma KeyedStep(xs: seq<real>, i: nat)
    requires i < |xs|
    ensures Keyed(xs, i + 1) == Keyed(xs, i)[i := xs[i]]
  {
  }

  /** `Object.values(m).reduce((a, b) => a + b, 0)`: the values under the
      keys 0..n-1, added in ascending key order. */
  function SumValues(m: map<nat, real>, n: nat): real
    requires forall i: nat :: i < n ==> i in m
  {
    if n == 0 then 0.0 else SumValues(m, n - 1) + m[n - 1]
  }

  /** What `detailedScoreQuestion(q)` returns. */
  function DetailOf(r: Record, clues: seq<Clue>): Detail {
    if |clues| == 0 then Detail(0.0, map[])
    else
      var m := Keyed(DetailedScores(r, clues), |clues|);
      Detail(SumValues(m, |clues|) / |clues| as real, m)
  }

  method DetailedScoreQuestion(r: Record, clues: seq<Clue>) returns (d: Detail)
    ensures d == DetailOf(r, clues)
  {
    if |clues| == 0 { return Detail(0.0, map[]); }
    var clueScores := ScoreEachClue(r, clues);
    var total := AddValues(clueScores, |clues|);
    d := Detail(total / |clues| as real, clueScores);
  }

  /** The loop of `detailedScoreQuestion` that fills `clueScores`. */
  method ScoreEachClue(r: Record, clues: seq<Clue>) returns (clueScores: map<nat, real>)
    ensures clueScores == Keyed(DetailedScores(r, clues), |clues|)
  {
    ghost var scores := DetailedScores(r, clues);
    clueScores := map[];
    for i := 0 to |clues|
      invariant clueScores == Keyed(scores, i)
    {
      var clue := clues[i];
      var score := DetailedScore(clue.text, SearchText(r, clue.target));
      KeyedStep(scores, i);
      clueScores := clueScores[i := score];
    }
  }

  /** `Object.values(clueScores).reduce((a, b) => a + b, 0)`. */
  method AddValues(m: map<nat, real>, n: nat) returns (total: real)
    requires forall i: nat :: i < n ==> i in m
    ensures total == SumValues(m, n)
  {
    total := 0.0;
    for i := 0 to n
      invariant total == SumValues(m, i)
    {
      total := total + m[i];
    }
  }

  // ---- Properties ----

  lemma {:induction false} JoinContainsEach(values: seq<string>, sep: string)
    ensures forall v :: v in values ==> Contains(Join(values, sep), v)
    decreases |values|
  {
    if |values| == 1 {
      assert values[0] <= Join(values, sep)[0..];
    } else if |values| > 1 {
      var init := values[..|values| - 1];
      var last := values[|values| - 1];
      JoinContainsEach(init, sep);
      var j := Join(init, sep);
      var whole := j + sep + last;
      assert whole == Join(values, sep);
      forall v | v in values
        ensures Contains(whole, v)
      {
        if v in init {
          var k :| 0 <= k <= |j| - |v| && v <= j[k..];
          assert v <= whole[k..];
        } else {
          assert v == last;
          assert whole[|j| + |sep|..] == v;
        }
      }
    }
  }

  lemma {:induction false} TotalBound(xs: seq<real>, n: nat)
    requires n <= |xs| && InRange(xs)
    ensures 0.0 <= Total(xs, n) <= 100.0 * n as real
  {
    if n > 0 {
      TotalBound(xs, n - 1);
    }
  }

  lemma {:induction false} TotalAllFull(xs: seq<real>, n: nat)
    requires n <= |xs| && forall i :: 0 <= i < n ==> xs[i] == 100.0
    ensures Total(xs, n) == 100.0 * n as real
  {
    if n > 0 {
      TotalAllFull(xs, n - 1);
    }
  }

  lemma FullMean(n: nat)
    requires n > 0
    ensures (100.0 * n as real) / n as real == 100.0
  {
  }

  /** The mean of scores in [0, 100] lies in [0, 100], and it is 100 when
      every score is. */
  lemma MeanRange(xs: seq<real>)
    requires |xs| > 0 && InRange(xs)
    ensures 0.0 <= Mean(xs) <= 100.0
    ensures (forall i :: 0 <= i < |xs| ==> xs[i] == 100.0) ==> Mean(xs) == 100.0
  {
    TotalBound(xs, |xs|);
    MeanBound(Total(xs, |xs|), |xs|);
    if forall i :: 0 <= i < |xs| ==> xs[i] == 100.0 {
      TotalAllFull(xs, |xs|);
      FullMean(|xs|);
    }
  }

  /** Adding up the keyed values adds up the scores. */
  lemma {:induction false} SumValuesKeyed(xs: seq<real>, n: nat)
    requires n <= |xs|
    ensures SumValues(Keyed(xs, |xs|), n) == Total(xs, n)
  {
    if n > 0 {
      SumValuesKeyed(xs, n - 1);
    }
  }

  /** `quickScoreQuestion` is 0 without clues and otherwise a score in
      [0, 100]; it is 100 when every clue on its own scores 100. */
  lemma QuickScoreQuestionRange(r: Record, clues: seq<Clue>)
    ensures 0.0 <= QuickScoreQuestionOf(r, clues) <= 100.0
    ensures |clues| == 0 ==> QuickScoreQuestionOf(r, clues) == 0.0
    ensures |clues| > 0 && (forall c :: c in clues ==> ClueQuickScore(r, c) == 100.0)
      ==> QuickScoreQuestionOf(r, clues) == 100.0
  {
    if |clues| > 0 {
      MeanRange(QuickScores(r, clues));
    }
  }

  /** `detailedScoreQuestion` without clues is `{total: 0, clueScores: {}}`;
      with clues its keys are exactly 0..n-1, each holding that clue's
      detailed score, and its total is the mean of those scores: a value in
      [0, 100], and 100 when every clue on its own scores 100. */
  lemma DetailShape(r: Record, clues: seq<Clue>)
    ensures var d := DetailOf(r, clues);
      && (forall i: nat :: i in d.clueScores <==> i < |clues|)
      && (forall i: nat :: i < |clues| ==> d.clueScores[i] == ClueDetailedScore(r, clues[i]))
      && (|clues| == 0 ==> d.total == 0.0)
      && (|clues| > 0 ==> d.total == Mean(DetailedScores(r, clues)))
      && 0.0 <= d.total <= 100.0
      && (|clues| > 0 && (forall c :: c in clues ==> ClueDetailedScore(r, c) == 100.0) ==> d.total == 100.0)
  {
    if |clues| > 0 {
      var xs := DetailedScores(r, clues);
      SumValuesKeyed(xs, |xs|);
      MeanRange(xs);
    }
  }

  /** A clue whose trimmed text appears verbatim in its side of the record
      scores 100 in both fidelities. */
  lemma ContainedClueScoresFull(r: Record, c: Clue)
    requires c.text != [] && Trim(c.text) == c.text && Contains(SearchText(r, c.target), c.text)
    ensures ClueQuickScore(r, c) == 100.0 && ClueDetailedScore(r, c) == 100.0
  {
    ContainedQueryScoresFull(c.text, SearchText(r, c.target));
  }
}
