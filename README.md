# ZNO clue collector: relevance ranking and password gate

This project models, in Dafny, the relevance-ranking core of the ZNO clue
collector web page (`app.js`) and its password gate (`auth.js`).

A user collects short *clues* (fragments of a test question or of its answer
options). After each change the page ranks the whole question corpus against
the clue list and announces a winner when one record clearly leads.

- **Text** (`text.dfy`): `toLowerCase`, `trim`, `includes`, `split(/\s+/)`
  followed by the length-2 filter, and `join`. Whitespace is the ECMAScript
  whitespace and line-terminator set.
- **EditDistance** (`edit_distance.dfy`): `levenshteinFast`. Its edge cases
  and its length-gap short-circuit are written out. The two-row dynamic
  program is an imperative method proved against the Levenshtein
  recurrence.
- **Scoring** (`scoring.dfy`): `quickScore` and `detailedScore`.
  - Scores are exact reals.
  - `Math.round` on a non-negative value is `floor(x + 1/2)`.
  - Each is a specification function plus a method that keeps the source's
    loops, including the `continue` and the early `break` at 90.
- **RecordMatcher** (`records.dfy`): `getSearchText`, `quickScoreQuestion`
  and `detailedScoreQuestion`. The `clueScores` object is a `map<nat, real>`
  keyed by clue position.
- **StableSort** (`sorting.dfy`): `Array.prototype.sort` with a descending
  comparator. It is a stable insertion sort in place on an array, proved to
  compute a functional stable sort `SortDesc`.
- **Ranking** (`ranking.dfy`): `search`, with its two passes:
  1. quick-score every record, sort, and keep the first 50;
  2. detail-score those, sort, and keep the first `limit`.

  It also holds the win condition of `doSearch` as the predicate
  `IsWinner`.
- **Clues** (`clues.dfy`): the global `clues` array as a class `ClueList`
  with `addClue`, `removeClue`, `toggleClue` and `clearClues`.
- **Auth** (`auth.dfy`):
  - `hashPassword`, with ECMAScript ToInt32 wrap-around written out;
  - `checkAuth`, with the stored `localStorage` value as a parameter;
  - the submit handler's comparison.

Two behaviours of the code worth knowing:
- **Ties in the final sort.** Results with equal detailed totals keep their
  quick-ranking order, which is not the corpus order in general
  (`Ranking.ResultsStable`). Corpus order decides ties only in the quick
  ranking (`Ranking.QuickTiesByPosition`).
- **Out-of-range `removeClue`.** With a non-negative index past the end it
  removes nothing (`splice`), rather than failing.

## Model

| member | source | states |
|---|---|---|
| Text.LowerChar | app.js:25-26 | lower-casing maps A-Z, the basic Cyrillic capitals and U+0490 to lower case, leaves every other character alone, and keeps whitespace whitespace |
| Text.TrimStartShape | app.js:25 | trimming the start removes exactly a prefix of whitespace and stops at a non-space character |
| Text.TrimEndShape | app.js:25 | trimming the end removes exactly a suffix of whitespace and stops at a non-space character |
| Text.TrimIsTrimmed | app.js:25 | a trimmed string starts and ends with a non-space character, and trimming it again changes nothing |
| Text.LowerTrim | app.js:25 | lower-casing and trimming commute |
| Text.ContainsSlice | app.js:29 | `includes` finds every slice of a string in it |
| Text.ContainsTrim | app.js:25-29 | a string contains its own trimmed form |
| Text.ContainsLower | app.js:25-29 | containment survives lower-casing both strings |
| Text.TokensAreWords | app.js:32 | every query token has at least two characters and no whitespace |
| Text.TokensSplit | app.js:32 | splitting at a whitespace character: the tokens of the whole are the tokens of the left part followed by those of the right |
| Text.TokensOfWord | app.js:32 | a whitespace-free word of two or more characters is its own only token |
| Text.ShortWordNoToken | app.js:32 | a whitespace-free word shorter than two characters gives no token |
| Text.LowerIdempotent | app.js:25-26 | lower-casing twice is lower-casing once |
| EditDistance.FillRow | app.js:95-102 | after one pass of the inner loop, `curr[j]` is the distance between `a[..i]` and `b[..j]` for every `j` |
| EditDistance.LevPrefixNeighbours | app.js:94-102 | adjacent cells of the table differ by at most 1 |
| EditDistance.LevPrefixIsStandard | app.js:94-102 | every cell of the two-row table equals the textbook Levenshtein recurrence `StdLev`, with its substitution, deletion and insertion cases |
| EditDistance.LevIsStandard | app.js:81-106 | the distance the loop computes is the textbook Levenshtein distance of the two strings |
| EditDistance.LevenshteinFast | app.js:81-106 | the result is `FastDistance`: 0 for equal strings, the other length when one is empty, the longer length when the lengths differ by more than 5, and otherwise the Levenshtein distance filled in by the two-row loop (the textbook distance, by `LevIsStandard`) |
| EditDistance.LevPrefixSymmetric | app.js:94-102 | the row recurrence gives the same distance with the two strings swapped |
| EditDistance.LevSymmetric | app.js:81-106 | the Levenshtein distance is symmetric |
| EditDistance.LevPrefixBounds | app.js:92-102 | every cell of the table lies between the difference and the maximum of its two prefix lengths |
| EditDistance.LevBounds | app.js:81-106 | the distance is at least the length difference and at most the longer length |
| EditDistance.LevPrefixZero | app.js:94-102 | a cell is 0 exactly when its two prefixes are equal |
| EditDistance.LevZeroIffEqual | app.js:81-106 | the distance is 0 exactly when the strings are equal |
| EditDistance.FastDistanceSound | app.js:81-106 | with a length gap of at most 5 the result is the true Levenshtein distance (`LevIsStandard`); otherwise it lies between the true distance and the longer length |
| EditDistance.FastDistanceSymmetric | app.js:81-106 | `levenshteinFast(a, b) == levenshteinFast(b, a)` |
| Scoring.Round | app.js:77 | `Math.round` of a non-negative value is the nearest integer, halves rounded up |
| Scoring.CountContained | app.js:35-38 | the matched-token count never exceeds the number of tokens |
| Scoring.QuickScoreOf | app.js:24-40 | the quick score lies in [0, 100] and is either 100 or at most 80 |
| Scoring.QuickScore | app.js:24-40 | the method with its counting loop returns `QuickScoreOf` |
| Scoring.QuickScoreFull | app.js:24-40 | the quick score is 100 exactly when the non-empty normalised text contains the non-empty normalised query; otherwise it is at most 80, and it is 0 when the normalised query or text is empty |
| Scoring.QuickScoreAllTokens | app.js:32-39 | when the text misses the whole query but contains every token, the score is exactly 80 |
| Scoring.QuickScoreNoTokens | app.js:28-33 | a query without a token of two or more characters scores 100 on containment and 0 otherwise |
| Scoring.QuickScoreOfNormalised | app.js:51 | the fallback `quickScore(q, t)` on the already normalised strings gives the same score as on the raw query and text |
| Scoring.Similarity | app.js:68-70 | the similarity of two tokens lies in [0, 100] |
| Scoring.SimilarityExact | app.js:66-70 | for tokens that pass the length-3 pruning, the length-5 short-circuit never fires and the clamp at 0 never bites: the similarity is `(1 - dist/maxLen) * 100` with the true distance |
| Scoring.SimilarityFull | app.js:66-70 | a text token scores 100 exactly when it equals the query token |
| Scoring.BestFrom | app.js:63-73 | the best match lies between its starting value and 100 |
| Scoring.BestMatch | app.js:63-73 | the scan with its `continue` and its `break` at 90 returns `BestFrom` |
| Scoring.BestFromFound | app.js:63-73 | the best match is 0 or the similarity of some text token that passes the pruning |
| Scoring.BestFromExhaustive | app.js:63-73 | a best match below 90 means the scan did not stop early: it is at least the similarity of every text token that passes the pruning |
| Scoring.Contribution | app.js:56-74 | each query token contributes a value in [0, 100] |
| Scoring.SumContributions | app.js:54-75 | the sum over `n` tokens lies in [0, 100 n] |
| Scoring.RoundedMean | app.js:77 | the rounded mean is a whole number in [0, 100] |
| Scoring.MeanOfContributions | app.js:77 | the loop's total divided by the token count is in [0, 100] and rounds to the detailed score |
| Scoring.DetailedScoreOf | app.js:43-78 | the detailed score is a whole number in [0, 100] |
| Scoring.DetailedScore | app.js:43-78 | the method with its nested loops returns `DetailedScoreOf` |
| Scoring.DetailedScoreEdgeCases | app.js:44-51 | 100 on containment; 0 for an empty query or text; 0 when the query has no token of two or more characters and is not contained (the fallback to `quickScore` can only give 0) |
| Scoring.DetailedScoreAllTokens | app.js:56-77 | a text that contains every query token gives a detailed score of 100 |
| Scoring.ContainedQueryScoresFull | app.js:24-48 | a non-empty trimmed query that appears verbatim in the text scores 100 in both fidelities |
| RecordMatcher.SearchText | app.js:109-113 | for target `"a"` every option value appears in the search text |
| RecordMatcher.JoinContainsEach | app.js:112 | every joined value appears in the result of `join` |
| RecordMatcher.ClueQuickScore | app.js:119 | each clue's quick score lies in [0, 100] |
| RecordMatcher.QuickScores | app.js:118-120 | one quick score per clue, in clue order, each in [0, 100] |
| RecordMatcher.QuickScoreQuestion | app.js:115-122 | the accumulating loop returns 0 without clues and otherwise the mean of the clues' quick scores |
| RecordMatcher.MeanRange | app.js:121 | the mean of scores in [0, 100] lies in [0, 100] and is 100 when every score is 100 |
| RecordMatcher.QuickScoreQuestionRange | app.js:115-122 | `quickScoreQuestion` is 0 without clues, lies in [0, 100], and is 100 when every clue scores 100 |
| RecordMatcher.ClueDetailedScore | app.js:129 | each clue's detailed score lies in [0, 100] |
| RecordMatcher.DetailedScores | app.js:127-130 | one detailed score per clue, in clue order, each in [0, 100] |
| RecordMatcher.ScoreEachClue | app.js:126-130 | the loop stores each clue's detailed score under its position |
| RecordMatcher.AddValues | app.js:131-132 | the `reduce` adds the values under keys 0..n-1 |
| RecordMatcher.SumValuesKeyed | app.js:131-132 | adding up the keyed values adds up the scores in clue order |
| RecordMatcher.DetailedScoreQuestion | app.js:124-134 | the method returns `DetailOf`: `{total: 0, clueScores: {}}` without clues, and otherwise the keyed scores with their mean |
| RecordMatcher.DetailShape | app.js:124-134 | `clueScores` has exactly the keys 0..n-1, each holding that clue's detailed score; `total` is their mean, lies in [0, 100], and is 100 when every clue scores 100 |
| RecordMatcher.ContainedClueScoresFull | app.js:119 | a clue whose trimmed text appears verbatim in its side of the record scores 100 in both fidelities |
| StableSort.SortByKeyDesc | app.js:147 | sorting the array in place leaves exactly `SortDesc` of its old contents |
| StableSort.InsertInPlace | app.js:147 | one insertion step shifts the smaller-keyed elements right and places the element where `Insert` puts it, leaving the rest of the array alone |
| StableSort.SortDescPermutation | app.js:147 | the sort is a permutation of its input |
| StableSort.SortDescSorted | app.js:147 | the result is in non-increasing key order |
| StableSort.SortDescStable | app.js:147 | for every key value, the elements with that key keep their input order |
| StableSort.SortDescTiesByRank | app.js:147 | a rank that increases along the input increases along every run of equal keys in the result |
| Ranking.SliceEnd | app.js:157 | `slice(0, limit)` stops within the list: a negative limit counts from the end |
| Ranking.Candidates | app.js:147-148 | there are `min(50, corpus size)` candidates |
| Ranking.QuickScoreAll | app.js:140-144 | pass 1 fills a fresh array with one entry per record, in corpus order, holding its index, the record and its quick score |
| Ranking.DetailScoreAll | app.js:151-154 | pass 2 fills a fresh array with one detailed result per candidate, in candidate order |
| Ranking.Search | app.js:136-158 | the two passes with their in-place sorts return `SearchOf` |
| Ranking.SearchLength | app.js:136-158 | no clues gives `[]`; there are never more than `min(50, corpus size)` results, and exactly `min(limit, 50, corpus size)` for a non-negative limit |
| Ranking.SearchSorted | app.js:156-157 | the results are in non-increasing order of detailed total |
| Ranking.SearchFromCandidates | app.js:146-157 | every result is the detailed scoring of one of the 50 candidates; every candidate's quick score is at least that of every record left out; the candidates are drawn from the quick-scored corpus |
| Ranking.ResultsFromCandidates | app.js:150-156 | every detailed result, before truncation, is the detailed scoring of a candidate |
| Ranking.QuickTiesByPosition | app.js:140-147 | records with equal quick scores keep corpus order in the quick ranking |
| Ranking.ResultsStable | app.js:151-156 | results with equal detailed totals keep their candidate (quick-ranking) order |
| Ranking.SingleRecordFound | app.js:136-158 | a record searched for by its own question text alone is the single result, with total 100, and wins |
| Ranking.IsWinner | app.js:234-240 | a winning result list is non-empty, its first total is at least 95, and it leads the second by more than 10 |
| Ranking.WinnerLeads | app.js:234-240 | on a sorted list a winner totals at least 95 and leads every other result by more than 10; a single result wins exactly when its total is at least 95 |
| Ranking.WinnerThreshold | app.js:234-240 | totals [95, 80] and [100, 89] win; [95, 81] and [100, 90] do not |
| Clues.ClueList.constructor | app.js:4 | the clue list starts empty |
| Clues.ClueList.AddClue | app.js:161-175 | refuses exactly the inputs that trim to fewer than two characters, and otherwise appends the trimmed clue |
| Clues.ClueList.RemoveClue | app.js:178-182 | the list becomes `Removed(old list, index)` |
| Clues.ClueList.ToggleClue | app.js:184-188 | the list becomes `Toggled(old list, index)` |
| Clues.ClueList.ClearClues | app.js:190-191 | the list becomes empty |
| Clues.AddedSpec | app.js:161-170 | the list is unchanged exactly when the trimmed input is shorter than two characters; otherwise the new clue comes last, the earlier clues stay in place, and the list stays well formed |
| Clues.RemovedSpec | app.js:178-179 | removal deletes only the clue at the index: the clues before it stay, the clues after it move down by one, and the multiset loses exactly that clue |
| Clues.ToggledSpec | app.js:184-185 | toggling changes only that clue's target, toggling twice restores the list, and the list stays well formed |
| Auth.ToInt32 | auth.js:11-12 | the wrapped value is a signed 32-bit integer and is unchanged when already one |
| Auth.StepIsTimes31 | auth.js:11-12 | `(hash << 5) - hash + char` followed by `hash & hash` is `31 * hash + char` wrapped to 32 bits |
| Auth.HashOf | auth.js:8-13 | the hash always stays a signed 32-bit integer |
| Auth.HashSnoc | auth.js:9-13 | the hash of `s + [c]` is one more step from the hash of `s` |
| Auth.HashIsPoly31 | auth.js:8-13 | the loop computes the base-31 polynomial of the character codes reduced to signed 32 bits |
| Auth.HashPassword | auth.js:6-15 | the loop's hash equals `HashOf` of the password, printed as the hexadecimal of its absolute value |
| Auth.EmptyHash | auth.js:8-14 | the empty password hashes to 0 and prints as "0" |
| Auth.Hex | auth.js:14 | `toString(16)` gives a non-empty string of lower-case hexadecimal digits |
| Auth.DigitValue | auth.js:14 | a digit's value is below 16 and prints back as the same digit |
| Auth.HexRoundTrip | auth.js:14 | reading back the hexadecimal form gives the number |
| Auth.HexNoLeadingZero | auth.js:14 | the hexadecimal form starts with 0 only for the number 0 |
| Auth.HexInjective | auth.js:14 | two numbers print the same exactly when they are equal |
| Auth.HexLength | auth.js:14 | a number below 16^k takes at most k digits |
| Auth.HashPasswordShape | auth.js:6-15 | `hashPassword` returns one to eight hexadecimal digits without a leading zero, whose value is at most 2^31 |
| Auth.PasswordHashValue | auth.js:4 | the stored hash "fa691989" has the value 0xfa691989 |
| Auth.PasswordHashFromValue | auth.js:4 | 0xfa691989 prints as the stored hash |
| Auth.WitnessHash | auth.js:8-13 | "ezrorooi" hashes to -93775479 |
| Auth.HexIsPasswordHash | auth.js:4 | a number prints as `PASSWORD_HASH` exactly when it is 0xfa691989 |
| Auth.CheckAuth | auth.js:17-24 | `checkAuth` holds exactly when the stored token is the hexadecimal form of 0xfa691989 |
| Auth.Submit | auth.js:139-153 | as written, the submit handler accepts no input and stores nothing |
| Auth.CorrectedSubmit | auth.js:143-145 | with the unsigned hash, an input is accepted exactly when the hash of its trimmed text is 0xfa691989 modulo 2^32, and the stored token passes `checkAuth` |
| Auth.CheckAuthTokens | auth.js:17-24 | the tokens `checkAuth` accepts are exactly those the corrected handler can store, and the handler as written can store none of them |
| Auth.WitnessAcceptedOnlyWhenCorrected | auth.js:14 | "ezrorooi" prints as "596e677" as written but as "fa691989" unsigned: the corrected handler accepts it and the one as written does not |

## Left out

- DOM rendering, events and timers are not modelled: `renderClues`, the
  display part of `doSearch`, the victory and question views, `escapeHtml`,
  `showAuthScreen`, placeholders, `focus`, the shake timeout and
  `window.location.reload`.
- Loading the corpus with `fetch` in `init` is network I/O. The corpus is a
  parameter of `Ranking.Search`.
- `localStorage` is I/O. `Auth.CheckAuth` takes the stored value as a
  parameter, and `Auth.Submit` returns the value it would store.
- The globals `questions` and `clues` are parameters of the scoring and
  search functions.
- Scores are exact reals, not IEEE-754 doubles, so the rounding of
  `dist / maxLen` and `matches / n * 80` is not modelled. `Math.round` is
  modelled for non-negative values only, which are the only ones that occur.
- Lower-casing covers ASCII, the basic Cyrillic capitals U+0400-U+042F and
  U+0490. The rest of Unicode case mapping, and `toLowerCase` changing a
  string's length, are not modelled.
- Characters are treated as single UTF-16 code units. Characters above
  U+FFFF (surrogate pairs) are not modelled in `charCodeAt`, `length` or
  slicing.
- A record keeps only `question_text` and the option values in
  `Object.values` order. The display fields `correct`, `type`, `url` and
  `question_id` are not modelled.
- An `options` object is given as the sequence `Object.values` returns.
  Building that sequence from the object (integer-like keys such as "1" to
  "4" first, in ascending order, then the other keys in insertion order) is
  not modelled.
- A clue target other than `"q"` is the single value `A`. `getSearchText`
  and `toggleClue` treat every non-`"q"` target alike.
- Clues.ClueList.ToggleClue: requires an index inside the list. With an
  index past the end, the source throws a TypeError.
- Clues.ClueList.RemoveClue: takes a non-negative index. The negative
  indices `splice` would count from the end never come from the page.
- The following methods keep one loop each so that every proof stays
  small. Each is stated against its own specification function:
  - EditDistance.FillRow
  - Scoring.BestMatch
  - RecordMatcher.ScoreEachClue, RecordMatcher.AddValues
  - Ranking.QuickScoreAll, Ranking.DetailScoreAll
  - StableSort.InsertInPlace

## Findings

| source | as written | input that shows it | evidently intended | confidence | as-written member | corrected member |
|---|---|---|---|---|---|---|
| auth.js:14 | `Math.abs(hash).toString(16)` prints the absolute value of the signed 32-bit hash. That value is at most 2^31 = 0x80000000, below the value 0xfa691989 of `PASSWORD_HASH` (auth.js:4), so the submit handler (auth.js:143-145) rejects every input | any input; for example "ezrorooi", whose hash is 0xfa691989 as an unsigned 32-bit value, but which `hashPassword` prints as "596e677" | the unsigned form `(hash >>> 0).toString(16)`, under which "ezrorooi" is accepted | not executed | Auth.Submit | Auth.CorrectedSubmit |
