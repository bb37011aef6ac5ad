/**
 * The two-pass `search` of app.js and the win condition `doSearch` checks on
 * its result list.
 *
 * Pass 1 quick-scores every record of the corpus and sorts the entries by
 * quick score; the first 50 entries become the candidates. Pass 2
 * detail-scores only the candidates, sorts them by detailed total and keeps
 * the first `limit`. Both sorts are stable.
 */
module Ranking {
  import opened Text
  import opened RecordMatcher
  import opened StableSort

  /** An entry of the quick-scored corpus: position in the corpus, record, score. */
  datatype QuickEntry = QuickEntry(idx: nat, record: Record, score: real)

  /** A search result: the record, its detailed total and the per-clue scores. */
  datatype Scored = Scored(record: Record, total: real, clueScores: map<nat, real>)

  /** How many quick-scored entries go on to detailed scoring. */
  const CandidateCount: nat := 50

  function QuickKey(e: QuickEntry): real { e.score }

  function Position(e: QuickEntry): int { e.idx }

  function TotalKey(s: Scored): real { s.total }

  function Min(x: nat, y: nat): nat { if x <= y then x else y }

  /** The end index `Array.prototype.slice(0, limit)` stops at on a list of
      length `len`: a negative limit counts from the end. */
  function SliceEnd(len: nat, limit: int): (e: nat)
    ensures e <= len
  {
    if limit >= 0 then Min(limit, len)
    else if len + limit >= 0 then len + limit
    else 0
  }

  // ---- The specification of search ----

  /** `questions.map((q, idx) => ({ idx, q, score: quickScoreQuestion(q) }))`. */
  function QuickScored(corpus: seq<Record>, clues: seq<Clue>): (s: seq<QuickEntry>)
    ensures |s| == |corpus|
    ensures forall i :: 0 <= i < |s| ==> s[i] == QuickEntry(i, corpus[i], QuickScoreQuestionOf(corpus[i], clues))
  {
    seq(|corpus|, i requires 0 <= i < |corpus| => QuickEntry(i, corpus[i], QuickScoreQuestionOf(corpus[i], clues)))
  }

  /** The quick-scored corpus after the first sort. */
  function QuickRanking(corpus: seq<Record>, clues: seq<Clue>): (s: seq<QuickEntry>)
    ensures |s| == |corpus|
  {
    SortDesc(QuickScored(corpus, clues), QuickKey)
  }

  /** `quickScored.slice(0, 50)`. */
  function Candidates(corpus: seq<Record>, clues: seq<Clue>): (s: seq<QuickEntry>)
    ensures |s| == Min(CandidateCount, |corpus|)
  {
    QuickRanking(corpus, clues)[..Min(CandidateCount, |corpus|)]
  }

  /** The detailed result for one candidate. */
  function DetailEntry(e: QuickEntry, clues: seq<Clue>): Scored {
    var d := DetailOf(e.record, clues);
    Scored(e.record, d.total, d.clueScores)
  }

  /** `candidates.map(({ q }) => ...)`. */
  function DetailAll(candidates: seq<QuickEntry>, clues: seq<Clue>): (s: seq<Scored>)
    ensures |s| == |candidates|
    ensures forall i :: 0 <= i < |s| ==> s[i] == DetailEntry(candidates[i], clues)
  {
    seq(|candidates|, i requires 0 <= i < |candidates| => DetailEntry(candidates[i], clues))
  }

  /** The detailed results after the second sort, before truncation. */
  function Results(corpus: seq<Record>, clues: seq<Clue>): (s: seq<Scored>)
    ensures |s| == Min(CandidateCount, |corpus|)
  {
    SortDesc(DetailAll(Candidates(corpus, clues), clues), TotalKey)
  }

  /** What `search(limit)` returns. */
  function SearchOf(corpus: seq<Record>, clues: seq<Clue>, limit: int): seq<Scored> {
    if |clues| == 0 then []
    else
      var results := Results(corpus, clues);
      results[..SliceEnd(|results|, limit)]
  }

  // ---- search ----

  /** Pass 1: quick-scores every record into a fresh array. */
  method QuickScoreAll(corpus: seq<Record>, clues: seq<Clue>) returns (quick: array<QuickEntry>)
    ensures fresh(quick)
    ensures quick[..] == QuickScored(corpus, clues)
  {
    quick := new QuickEntry[|corpus|];
    for i := 0 to |corpus|
      invariant forall k :: 0 <= k < i ==> quick[k] == QuickEntry(k, corpus[k], QuickScoreQuestionOf(corpus[k], clues))
    {
      var score := QuickScoreQuestion(corpus[i], clues);
      quick[i] := QuickEntry(i, corpus[i], score);
    }
  }

  /** Pass 2: detail-scores every candidate into a fresh array. */
  method DetailScoreAll(candidates: seq<QuickEntry>, clues: seq<Clue>) returns (results: array<Scored>)
    ensures fresh(results)
    ensures results[..] == DetailAll(candidates, clues)
  {
    results := new Scored[|candidates|];
    for i := 0 to |candidates|
      invariant forall k :: 0 <= k < i ==> results[k] == DetailEntry(candidates[k], clues)
    {
      var d := DetailedScoreQuestion(candidates[i].record, clues);
      results[i] := Scored(candidates[i].record, d.total, d.clueScores);
    }
  }

  method Search(corpus: seq<Record>, clues: seq<Clue>, limit: int) returns (found: seq<Scored>)
    ensures found == SearchOf(corpus, clues, limit)
  {
    if |clues| == 0 { return []; }
    var quick := QuickScoreAll(corpus, clues);
    SortByKeyDesc(quick, QuickKey);
    var candidates := quick[..Min(CandidateCount, quick.Length)];
    var results := DetailScoreAll(candidates, clues);
    SortByKeyDesc(results, TotalKey);
    found := results[..SliceEnd(results.Length, limit)];
  }

  // ---- The win condition of doSearch ----

  /** The win condition: a non-empty result list whose top total is 100
      with the runner-up below 90, or whose top total is at least 95 and is
      either alone or at least 15 ahead of the runner-up. A missing
      runner-up counts as 0. */
  predicate IsWinner(results: seq<Scored>)
    ensures IsWinner(results) ==>
      |results| > 0 && results[0].total >= 95.0 && (|results| > 1 ==> results[0].total - results[1].total > 10.0)
  {
    |results| > 0 &&
    var top := results[0].total;
    var second := if |results| > 1 then results[1].total else 0.0;
    (top == 100.0 && second < 90.0) || (top >= 95.0 && (|results| == 1 || top - second >= 15.0))
  }

  // ---- Properties of search ----

  /** No clues, no results; otherwise exactly `min(limit, 50, |corpus|)`
      results for a non-negative limit, and never more than `min(50, |corpus|)`. */
  lemma SearchLength(corpus: seq<Record>, clues: seq<Clue>, limit: int)
    ensures |clues| == 0 ==> SearchOf(corpus, clues, limit) == []
    ensures |SearchOf(corpus, clues, limit)| <= Min(CandidateCount, |corpus|)
    ensures |clues| > 0 && limit >= 0
      ==> |SearchOf(corpus, clues, limit)| == Min(limit, Min(CandidateCount, |corpus|))
  {
  }

  /** The results are ordered by non-increasing detailed total. */
  lemma SearchSorted(corpus: seq<Record>, clues: seq<Clue>, limit: int)
    ensures SortedDesc(SearchOf(corpus, clues, limit), TotalKey)
  {
    if |clues| > 0 {
      SortDescSorted(DetailAll(Candidates(corpus, clues), clues), TotalKey);
    }
  }

  /** Every result is the detailed scoring of a candidate, whose total is
      the mean of its clues' detailed scores; every candidate's quick score is
      at least that of every corpus entry that did not make the cut. */
  lemma SearchFromCandidates(corpus: seq<Record>, clues: seq<Clue>, limit: int)
    ensures forall s :: s in SearchOf(corpus, clues, limit) ==>
      exists e :: e in Candidates(corpus, clues) && s == DetailEntry(e, clues)
    ensures var ranking := QuickRanking(corpus, clues);
      var n := Min(CandidateCount, |corpus|);
      forall i, j :: 0 <= i < n <= j < |ranking| ==> ranking[i].score >= ranking[j].score
    ensures multiset(Candidates(corpus, clues)) <= multiset(QuickScored(corpus, clues))
  {
    if |clues| > 0 {
      ResultsFromCandidates(corpus, clues);
      var results := Results(corpus, clues);
      assert forall s :: s in SearchOf(corpus, clues, limit) ==> s in results;
    }
    var ranking := QuickRanking(corpus, clues);
    SortDescSorted(QuickScored(corpus, clues), QuickKey);
    SortDescPermutation(QuickScored(corpus, clues), QuickKey);
    var n := Min(CandidateCount, |corpus|);
    assert ranking == ranking[..n] + ranking[n..];
  }

  /** Every detailed result before truncation scores one of the candidates. */
  lemma ResultsFromCandidates(corpus: seq<Record>, clues: seq<Clue>)
    ensures forall s :: s in Results(corpus, clues) ==>
      exists e :: e in Candidates(corpus, clues) && s == DetailEntry(e, clues)
  {
    var cands := Candidates(corpus, clues);
    var all := DetailAll(cands, clues);
    SortDescPermutation(all, TotalKey);
    forall s | s in Results(corpus, clues)
      ensures exists e :: e in cands && s == DetailEntry(e, clues)
    {
      assert s in multiset(all);
      var k :| 0 <= k < |all| && all[k] == s;
      assert cands[k] in cands;
    }
  }

  /** In the quick ranking, entries with equal quick scores keep corpus order. */
  lemma QuickTiesByPosition(corpus: seq<Record>, clues: seq<Clue>)
    ensures var r := QuickRanking(corpus, clues);
      forall i, j :: 0 <= i < j < |r| && r[i].score == r[j].score ==> r[i].idx < r[j].idx
  {
    SortDescTiesByRank(QuickScored(corpus, clues), QuickKey, Position);
  }

  /** Results with equal detailed totals keep their order in the candidate
      list, that is, their quick-ranking order. */
  lemma ResultsStable(corpus: seq<Record>, clues: seq<Clue>, v: real)
    ensures WithKey(Results(corpus, clues), TotalKey, v)
         == WithKey(DetailAll(Candidates(corpus, clues), clues), TotalKey, v)
  {
    SortDescStable(DetailAll(Candidates(corpus, clues), clues), TotalKey, v);
  }

  /** A record whose question text is itself the only clue (non-empty and
      already trimmed) is the single result, with a total of 100, and wins. */
  lemma SingleRecordFound(r: Record, limit: int)
    requires r.questionText != [] && Trim(r.questionText) == r.questionText
    requires limit >= 1
    ensures var found := SearchOf([r], [Clue(r.questionText, Q)], limit);
      |found| == 1 && found[0].record == r && found[0].total == 100.0 && IsWinner(found)
  {
    var clues := [Clue(r.questionText, Q)];
    var t := r.questionText;
    ContainsSlice(t, 0, |t|);
    assert t[0..|t|] == t;
    ContainedClueScoresFull(r, clues[0]);
    DetailShape(r, clues);
    var e := QuickEntry(0, r, QuickScoreQuestionOf(r, clues));
    assert QuickScored([r], clues) == [e];
    assert QuickRanking([r], clues) == [e];
    assert DetailAll(Candidates([r], clues), clues) == [DetailEntry(e, clues)];
  }

  // ---- Properties of the win condition ----

  /** A winner leads: its total is at least 95, and on a sorted list every
      other result is more than 10 below it. With a single result the
      condition is exactly a total of at least 95. */
  lemma WinnerLeads(results: seq<Scored>)
    requires SortedDesc(results, TotalKey)
    ensures IsWinner(results) ==>
      results[0].total >= 95.0 && forall k :: 1 <= k < |results| ==> results[0].total - results[k].total > 10.0
    ensures |results| == 1 ==> (IsWinner(results) <==> results[0].total >= 95.0)
  {
    if IsWinner(results) && |results| > 1 {
      forall k | 1 <= k < |results|
        ensures results[0].total - results[k].total > 10.0
      {
        assert TotalKey(results[1]) >= TotalKey(results[k]) || k == 1;
      }
    }
  }

  /** The threshold cases: totals 95 and 80 win, 95 and 81 do not. */
  lemma WinnerThreshold(r: Record)
    ensures IsWinner([Scored(r, 95.0, map[]), Scored(r, 80.0, map[])])
    ensures !IsWinner([Scored(r, 95.0, map[]), Scored(r, 81.0, map[])])
    ensures IsWinner([Scored(r, 100.0, map[]), Scored(r, 89.0, map[])])
    ensures !IsWinner([Scored(r, 100.0, map[]), Scored(r, 90.0, map[])])
  {
  }
}
