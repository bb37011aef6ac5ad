/**
 * `levenshteinFast` (app.js): edit distance between two short tokens, with
 * edge cases, a length-gap short-circuit, and a two-row dynamic program.
 */
module EditDistance {

  function Min3(x: nat, y: nat, z: nat): (r: nat)
    ensures r <= x && r <= y && r <= z
    ensures r == x || r == y || r == z
  {
    if x <= y && x <= z then x else if y <= z then y else z
  }

  function Max(x: nat, y: nat): nat {
    if x >= y then x else y
  }

  function Gap(x: nat, y: nat): nat {
    if x >= y then x - y else y - x
  }

  /** The Levenshtein distance between the prefixes `a[..i]` and `b[..j]`,
      by the recurrence the dynamic program fills its rows with: a matching
      last character costs nothing, otherwise one substitution, deletion or
      insertion is added to the cheapest neighbouring cell. */
  function LevPrefix(a: string, b: string, i: nat, j: nat): nat
    requires i <= |a| && j <= |b|
    decreases i + j
  {
    if i == 0 then j
    else if j == 0 then i
    else if a[i - 1] == b[j - 1] then LevPrefix(a, b, i - 1, j - 1)
    else 1 + Min3(LevPrefix(a, b, i - 1, j - 1), LevPrefix(a, b, i - 1, j), LevPrefix(a, b, i, j - 1))
  }

  /** The Levenshtein distance between `a` and `b`. */
  function Lev(a: string, b: string): nat {
    LevPrefix(a, b, |a|, |b|)
  }

  /** What `levenshteinFast(a, b)` returns: the edge cases, the short-circuit
      for length gaps above 5, and otherwise the full distance. */
  function FastDistance(a: string, b: string): nat {
    if a == b then 0
    else if |a| == 0 then |b|
    else if |b| == 0 then |a|
    else if Gap(|a|, |b|) > 5 then Max(|a|, |b|)
    else Lev(a, b)
  }

  /** One row of the dynamic program: fills `curr` with row `i` from row
      `i - 1` held in `prev`. */
  method FillRow(a: string, b: string, i: nat, prev: array<nat>, curr: array<nat>)
    requires 1 <= i <= |a|
    requires prev.Length == curr.Length == |b| + 1 && prev != curr
    requires forall k {:trigger prev[k]} :: 0 <= k <= |b| ==> prev[k] == LevPrefix(a, b, i - 1, k)
    modifies curr
    ensures forall k {:trigger curr[k]} :: 0 <= k <= |b| ==> curr[k] == LevPrefix(a, b, i, k)
  {
    curr[0] := i;
    for j := 1 to |b| + 1
      invariant forall k {:trigger curr[k]} :: 0 <= k < j ==> curr[k] == LevPrefix(a, b, i, k)
    {
      var diagonal, up, left := prev[j - 1], prev[j], curr[j - 1];
      assert diagonal == LevPrefix(a, b, i - 1, j - 1);
      assert up == LevPrefix(a, b, i - 1, j);
      assert left == LevPrefix(a, b, i, j - 1);
      if a[i - 1] == b[j - 1] {
        curr[j] := diagonal;
      } else {
        curr[j] := 1 + Min3(diagonal, up, left);
      }
    }
  }

  /** The two-row dynamic program, with the arrays `prev` and `curr` swapped
      after every row. */
  method LevenshteinFast(a: string, b: string) returns (d: nat)
    ensures d == FastDistance(a, b)
  {
    if a == b { return 0; }
    if |a| == 0 { return |b|; }
    if |b| == 0 { return |a|; }
    if Gap(|a|, |b|) > 5 { return Max(|a|, |b|); }

    var prev := new nat[|b| + 1];
    var curr := new nat[|b| + 1];
    for j := 0 to |b| + 1
      invariant forall k {:trigger prev[k]} :: 0 <= k < j ==> prev[k] == LevPrefix(a, b, 0, k)
    {
      prev[j] := j;
    }
    for i := 1 to |a| + 1
      invariant prev.Length == curr.Length == |b| + 1 && prev != curr
      invariant fresh(prev) && fresh(curr)
      invariant forall k {:trigger prev[k]} :: 0 <= k <= |b| ==> prev[k] == LevPrefix(a, b, i - 1, k)
    {
      FillRow(a, b, i, prev, curr);
      prev, curr := curr, prev;
    }
    d := prev[|b|];
  }

  // ---- Properties of the distance ----

  /** The distance does not depend on the order of its arguments. */
  lemma {:induction false} LevPrefixSymmetric(a: string, b: string, i: nat, j: nat)
    requires i <= |a| && j <= |b|
    ensures LevPrefix(a, b, i, j) == LevPrefix(b, a, j, i)
    decreases i + j
  {
    if i > 0 && j > 0 {
      LevPrefixSymmetric(a, b, i - 1, j - 1);
      LevPrefixSymmetric(a, b, i - 1, j);
      LevPrefixSymmetric(a, b, i, j - 1);
    }
  }

  lemma LevSymmetric(a: string, b: string)
    ensures Lev(a, b) == Lev(b, a)
  {
    LevPrefixSymmetric(a, b, |a|, |b|);
  }

  /** The distance lies between the length gap and the longer length. */
  lemma {:induction false} LevPrefixBounds(a: string, b: string, i: nat, j: nat)
    requires i <= |a| && j <= |b|
    ensures Gap(i, j) <= LevPrefix(a, b, i, j) <= Max(i, j)
    decreases i + j
  {
    if i > 0 && j > 0 {
      LevPrefixBounds(a, b, i - 1, j - 1);
      LevPrefixBounds(a, b, i - 1, j);
      LevPrefixBounds(a, b, i, j - 1);
    }
  }

  lemma LevBounds(a: string, b: string)
    ensures Gap(|a|, |b|) <= Lev(a, b) <= Max(|a|, |b|)
  {
    LevPrefixBounds(a, b, |a|, |b|);
  }

  /** Distance zero means equal prefixes, and equal prefixes are at distance zero. */
  lemma {:induction false} LevPrefixZero(a: string, b: string, i: nat, j: nat)
    requires i <= |a| && j <= |b|
    ensures LevPrefix(a, b, i, j) == 0 <==> i == j && a[..i] == b[..j]
    decreases i + j
  {
    if i > 0 && j > 0 {
      LevPrefixZero(a, b, i - 1, j - 1);
      assert a[..i] == a[..i - 1] + [a[i - 1]];
      assert b[..j] == b[..j - 1] + [b[j - 1]];
      if i == j && a[..i] == b[..j] {
        assert a[i - 1] == a[..i][i - 1];
        assert a[..i - 1] == a[..i][..i - 1];
        assert b[..j - 1] == b[..j][..j - 1];
      }
    }
  }

  lemma LevZeroIffEqual(a: string, b: string)
    ensures Lev(a, b) == 0 <==> a == b
  {
    LevPrefixZero(a, b, |a|, |b|);
    assert a[..|a|] == a && b[..|b|] == b;
  }

  // ---- The recurrence is the textbook Levenshtein distance ----

  /** The textbook definition: the cheapest of a substitution (free when the
      characters match), a deletion and an insertion. */
  function StdLev(a: string, b: string, i: nat, j: nat): nat
    requires i <= |a| && j <= |b|
    decreases i + j
  {
    if i == 0 then j
    else if j == 0 then i
    else Min3(StdLev(a, b, i - 1, j - 1) + (if a[i - 1] == b[j - 1] then 0 else 1),
              StdLev(a, b, i - 1, j) + 1,
              StdLev(a, b, i, j - 1) + 1)
  }

  /** Neighbouring cells of the table differ by at most one. */
  lemma {:induction false} LevPrefixNeighbours(a: string, b: string, i: nat, j: nat)
    requires i <= |a| && j <= |b|
    ensures i >= 1 ==>
      LevPrefix(a, b, i, j) <= LevPrefix(a, b, i - 1, j) + 1 && LevPrefix(a, b, i - 1, j) <= LevPrefix(a, b, i, j) + 1
    ensures j >= 1 ==>
      LevPrefix(a, b, i, j) <= LevPrefix(a, b, i, j - 1) + 1 && LevPrefix(a, b, i, j - 1) <= LevPrefix(a, b, i, j) + 1
    decreases i + j
  {
    if i >= 1 && j >= 1 {
      LevPrefixNeighbours(a, b, i - 1, j);
      LevPrefixNeighbours(a, b, i, j - 1);
    }
  }

  /** Where the last characters match, the diagonal is already the cheapest
      of the three neighbours, so taking it directly (as the loop does) is the
      textbook minimum. */
  lemma MatchTakesDiagonal(a: string, b: string, i: nat, j: nat)
    requires 1 <= i <= |a| && 1 <= j <= |b|
    ensures LevPrefix(a, b, i - 1, j - 1) <= LevPrefix(a, b, i - 1, j) + 1
    ensures LevPrefix(a, b, i - 1, j - 1) <= LevPrefix(a, b, i, j - 1) + 1
  {
    LevPrefixNeighbours(a, b, i - 1, j);
    LevPrefixNeighbours(a, b, i, j - 1);
  }

  /** The loop's recurrence computes the textbook distance in every cell. */
  lemma {:induction false} LevPrefixIsStandard(a: string, b: string, i: nat, j: nat)
    requires i <= |a| && j <= |b|
    ensures LevPrefix(a, b, i, j) == StdLev(a, b, i, j)
    decreases i + j
  {
    if i >= 1 && j >= 1 {
      LevPrefixIsStandard(a, b, i - 1, j - 1);
      LevPrefixIsStandard(a, b, i - 1, j);
      LevPrefixIsStandard(a, b, i, j - 1);
      if a[i - 1] == b[j - 1] {
        MatchTakesDiagonal(a, b, i, j);
      }
    }
  }

  /** `Lev` is the Levenshtein distance of the two whole strings. */
  lemma LevIsStandard(a: string, b: string)
    ensures Lev(a, b) == StdLev(a, b, |a|, |b|)
  {
    LevPrefixIsStandard(a, b, |a|, |b|);
  }

  // ---- Properties of levenshteinFast ----

  /** `levenshteinFast` is exact whenever the lengths differ by at most 5, and
      otherwise returns an upper bound of the true distance. */
  lemma FastDistanceSound(a: string, b: string)
    ensures Gap(|a|, |b|) <= 5 ==> FastDistance(a, b) == Lev(a, b)
    ensures Lev(a, b) <= FastDistance(a, b) <= Max(|a|, |b|)
  {
    LevBounds(a, b);
    LevZeroIffEqual(a, b);
  }

  /** Like the distance itself, `levenshteinFast` is symmetric. */
  lemma FastDistanceSymmetric(a: string, b: string)
    ensures FastDistance(a, b) == FastDistance(b, a)
  {
    LevSymmetric(a, b);
  }
}
