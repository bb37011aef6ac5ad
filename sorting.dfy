/**
 * `Array.prototype.sort` with a descending comparator `(a, b) => key(b) - key(a)`,
 * as both sorts in `search` (app.js) use it. The sort is stable: elements with
 * equal keys keep their relative order. `SortDesc` is the functional
 * definition (an insertion sort that inserts each element after every
 * element whose key is at least its own); `SortByKeyDesc` sorts an array in
 * place and is proved to produce exactly `SortDesc`.
 */
module StableSort {

  /** Inserts `x` into a list sorted by non-increasing key, after every
      element whose key is at least `key(x)`. */
  function Insert<T>(sorted: seq<T>, x: T, key: T -> real): (r: seq<T>)
    ensures |r| == |sorted| + 1
    decreases |sorted|
  {
    if sorted == [] then [x]
    else if key(sorted[|sorted| - 1]) >= key(x) then sorted + [x]
    else Insert(sorted[..|sorted| - 1], x, key) + [sorted[|sorted| - 1]]
  }

  /** The stable sort by non-increasing key. */
  function SortDesc<T>(s: seq<T>, key: T -> real): (r: seq<T>)
    ensures |r| == |s|
    decreases |s|
  {
    if s == [] then [] else Insert(SortDesc(s[..|s| - 1], key), s[|s| - 1], key)
  }

  predicate SortedDesc<T>(s: seq<T>, key: T -> real) {
    forall i, j :: 0 <= i < j < |s| ==> key(s[i]) >= key(s[j])
  }

  /** The elements of `s` whose key is `v`, in their order in `s`. */
  function WithKey<T>(s: seq<T>, key: T -> real, v: real): (r: seq<T>)
    ensures |r| <= |s|
    decreases |s|
  {
    if s == [] then []
    else WithKey(s[..|s| - 1], key, v) + (if key(s[|s| - 1]) == v then [s[|s| - 1]] else [])
  }

  /** Among elements with equal keys, `rank` increases along the list. */
  predicate TiesByRank<T>(s: seq<T>, key: T -> real, rank: T -> int) {
    forall i, j :: 0 <= i < j < |s| && key(s[i]) == key(s[j]) ==> rank(s[i]) < rank(s[j])
  }

  // ---- The in-place sort ----

  /** Where `Insert` places `x`: after the elements of `p[..j]`, when every
      element after them has a smaller key and the last of them does not. */
  lemma {:induction false} InsertPosition<T>(p: seq<T>, j: nat, x: T, key: T -> real)
    requires j <= |p| && (j == 0 || key(p[j - 1]) >= key(x))
    requires forall k :: j <= k < |p| ==> key(p[k]) < key(x)
    ensures Insert(p, x, key) == p[..j] + [x] + p[j..]
    decreases |p|
  {
    if |p| == j {
      assert p[..j] == p && p[j..] == [];
    } else {
      var init := p[..|p| - 1];
      assert init[..j] == p[..j];
      InsertPosition(init, j, x, key);
      assert p[j..] == init[j..] + [p[|p| - 1]];
    }
  }

  /** One step of the outer loop: the sorted prefix grows by the next element. */
  lemma SortDescStep<T>(s: seq<T>, i: nat, key: T -> real)
    requires i < |s|
    ensures SortDesc(s[..i + 1], key) == Insert(SortDesc(s[..i], key), s[i], key)
  {
    assert s[..i + 1][..i] == s[..i];
  }

  /** Insertion sort in place. */
  method SortByKeyDesc<T>(a: array<T>, key: T -> real)
    modifies a
    ensures a[..] == SortDesc(old(a[..]), key)
  {
    ghost var s := a[..];
    for i := 0 to a.Length
      invariant a[..i] == SortDesc(s[..i], key)
      invariant a[i..] == s[i..]
    {
      assert a[i] == s[i];
      InsertInPlace(a, i, key);
      SortDescStep(s, i, key);
    }
    assert a[..] == a[..a.Length] && s == s[..a.Length];
  }

  /** Places `a[i]` into the sorted prefix `a[..i]`: the elements whose key
      is below its key move one slot to the right. */
  method InsertInPlace<T>(a: array<T>, i: nat, key: T -> real)
    requires i < a.Length
    modifies a
    ensures a[..i + 1] == Insert(old(a[..i]), old(a[i]), key)
    ensures a[i + 1..] == old(a[i + 1..])
  {
    var x := a[i];
    ghost var p := a[..i];
    var j := i;
    while j > 0 && key(a[j - 1]) < key(x)
      invariant 0 <= j <= i
      invariant forall k :: 0 <= k < j ==> a[k] == p[k]
      invariant forall k :: j < k <= i ==> a[k] == p[k - 1]
      invariant forall k :: i < k < a.Length ==> a[k] == old(a[k])
      invariant forall k :: j <= k < i ==> key(p[k]) < key(x)
    {
      a[j] := a[j - 1];
      j := j - 1;
    }
    a[j] := x;
    InsertPosition(p, j, x, key);
    assert a[..i + 1] == p[..j] + [x] + p[j..];
  }

  // ---- Properties of SortDesc ----

  lemma {:induction false} InsertMultiset<T>(p: seq<T>, x: T, key: T -> real)
    ensures multiset(Insert(p, x, key)) == multiset(p) + multiset{x}
    decreases |p|
  {
    if p != [] && key(p[|p| - 1]) < key(x) {
      InsertMultiset(p[..|p| - 1], x, key);
      assert p == p[..|p| - 1] + [p[|p| - 1]];
    }
  }

  /** The sort is a permutation of its input. */
  lemma {:induction false} SortDescPermutation<T>(s: seq<T>, key: T -> real)
    ensures multiset(SortDesc(s, key)) == multiset(s)
    decreases |s|
  {
    if s != [] {
      SortDescPermutation(s[..|s| - 1], key);
      InsertMultiset(SortDesc(s[..|s| - 1], key), s[|s| - 1], key);
      assert s == s[..|s| - 1] + [s[|s| - 1]];
    }
  }

  lemma InsertMembers<T>(p: seq<T>, x: T, key: T -> real)
    ensures forall y :: y in Insert(p, x, key) ==> y in p || y == x
  {
    InsertMultiset(p, x, key);
    forall y | y in Insert(p, x, key)
      ensures y in p || y == x
    {
      assert y in multiset(Insert(p, x, key));
    }
  }

  lemma {:induction false} InsertSorted<T>(p: seq<T>, x: T, key: T -> real)
    requires SortedDesc(p, key)
    ensures SortedDesc(Insert(p, x, key), key)
    decreases |p|
  {
    if p != [] && key(p[|p| - 1]) < key(x) {
      var init, last := p[..|p| - 1], p[|p| - 1];
      InsertSorted(init, x, key);
      InsertMembers(init, x, key);
      var q := Insert(init, x, key);
      forall i | 0 <= i < |q|
        ensures key(q[i]) >= key(last)
      {
        assert q[i] in q;
        if q[i] != x {
          var k :| 0 <= k < |init| && init[k] == q[i];
          assert p[k] == q[i];
        }
      }
    }
  }

  /** The result is ordered by non-increasing key. */
  lemma {:induction false} SortDescSorted<T>(s: seq<T>, key: T -> real)
    ensures SortedDesc(SortDesc(s, key), key)
    decreases |s|
  {
    if s != [] {
      SortDescSorted(s[..|s| - 1], key);
      InsertSorted(SortDesc(s[..|s| - 1], key), s[|s| - 1], key);
    }
  }

  lemma {:induction false} WithKeyAppend<T>(s: seq<T>, t: seq<T>, key: T -> real, v: real)
    ensures WithKey(s + t, key, v) == WithKey(s, key, v) + WithKey(t, key, v)
    decreases |t|
  {
    if t == [] {
      assert s + t == s;
    } else {
      WithKeyAppend(s, t[..|t| - 1], key, v);
      assert (s + t)[..|s + t| - 1] == s + t[..|t| - 1];
    }
  }

  lemma WithKeySingle<T>(y: T, key: T -> real, v: real)
    ensures WithKey([y], key, v) == if key(y) == v then [y] else []
  {
    assert [y][..0] == [];
  }

  lemma {:induction false} InsertWithKey<T>(p: seq<T>, x: T, key: T -> real, v: real)
    ensures WithKey(Insert(p, x, key), key, v) == WithKey(p, key, v) + WithKey([x], key, v)
    decreases |p|
  {
    if p == [] {
      WithKeySingle(x, key, v);
    } else if key(p[|p| - 1]) >= key(x) {
      WithKeyAppend(p, [x], key, v);
    } else {
      var init, last := p[..|p| - 1], p[|p| - 1];
      var q := Insert(init, x, key);
      assert Insert(p, x, key) == q + [last];
      InsertWithKey(init, x, key, v);
      WithKeyAppend(q, [last], key, v);
      WithKeyAppend(init, [last], key, v);
      assert init + [last] == p;
      WithKeySingle(x, key, v);
      WithKeySingle(last, key, v);
    }
  }

  /** Stability: for every key value, the elements with that key appear in
      the result in the same order as in the input. */
  lemma {:induction false} SortDescStable<T>(s: seq<T>, key: T -> real, v: real)
    ensures WithKey(SortDesc(s, key), key, v) == WithKey(s, key, v)
    decreases |s|
  {
    if s != [] {
      var init, last := s[..|s| - 1], s[|s| - 1];
      SortDescStable(init, key, v);
      InsertWithKey(SortDesc(init, key), last, key, v);
      WithKeyAppend(init, [last], key, v);
      assert init + [last] == s;
    }
  }

  lemma {:induction false} InsertTiesByRank<T>(p: seq<T>, x: T, key: T -> real, rank: T -> int)
    requires SortedDesc(p, key) && TiesByRank(p, key, rank)
    requires forall y :: y in p ==> rank(y) < rank(x)
    ensures TiesByRank(Insert(p, x, key), key, rank)
    decreases |p|
  {
    if p != [] && key(p[|p| - 1]) < key(x) {
      var init, last := p[..|p| - 1], p[|p| - 1];
      assert forall y :: y in init ==> y in p;
      InsertTiesByRank(init, x, key, rank);
      InsertMembers(init, x, key);
      var q := Insert(init, x, key);
      forall y | y in q && key(y) == key(last)
        ensures rank(y) < rank(last)
      {
        var k :| 0 <= k < |init| && init[k] == y;
        assert p[k] == y;
      }
      TiesByRankSnoc(q, last, key, rank);
      assert Insert(p, x, key) == q + [last];
    }
  }

  /** Appending an element that outranks every earlier element of equal key. */
  lemma TiesByRankSnoc<T>(q: seq<T>, last: T, key: T -> real, rank: T -> int)
    requires TiesByRank(q, key, rank)
    requires forall y :: y in q && key(y) == key(last) ==> rank(y) < rank(last)
    ensures TiesByRank(q + [last], key, rank)
  {
    var s := q + [last];
    forall i, j | 0 <= i < j < |s| && key(s[i]) == key(s[j])
      ensures rank(s[i]) < rank(s[j])
    {
      if j == |q| {
        assert s[i] in q;
      }
    }
  }

  /** Ties are broken by input position: when `rank` increases along the
      input, it increases along every run of equal keys in the result. */
  lemma {:induction false} SortDescTiesByRank<T>(s: seq<T>, key: T -> real, rank: T -> int)
    requires forall i, j :: 0 <= i < j < |s| ==> rank(s[i]) < rank(s[j])
    ensures TiesByRank(SortDesc(s, key), key, rank)
    decreases |s|
  {
    if s != [] {
      var init, last := s[..|s| - 1], s[|s| - 1];
      SortDescTiesByRank(init, key, rank);
      SortDescSorted(init, key);
      SortDescPermutation(init, key);
      forall y | y in SortDesc(init, key)
        ensures rank(y) < rank(last)
      {
        assert y in multiset(SortDesc(init, key));
        var k :| 0 <= k < |init| && init[k] == y;
      }
      InsertTiesByRank(SortDesc(init, key), last, key, rank);
    }
  }
}
