/**
 * Ordering a population by a score.  Java's `List.sort` and
 * `Stream.sorted` are stable sorts: the result is ascending by score, a
 * permutation of the input, and keeps equally scored elements in their
 * input order.  `SortByKey` is such an ordering, written as an insertion
 * sort, with those three properties proved; `SortInPlace` is the in-place
 * sort of a list, proved to produce it.  `FirstMin` is `Collections.min`
 * with a comparator: the first element of least score.
 */
module Ranking {

  ghost predicate SortedBy<T>(s: seq<T>, key: T -> int)
  {
    forall i, j :: 0 <= i < j < |s| ==> key(s[i]) <= key(s[j])
  }

  /** Inserts x after every element whose key is at most x's. */
  function Insert<T>(x: T, t: seq<T>, key: T -> int): seq<T>
  {
    if t == [] then [x]
    else if key(t[|t| - 1]) <= key(x) then t + [x]
    else Insert(x, t[..|t| - 1], key) + [t[|t| - 1]]
  }

  function SortByKey<T>(s: seq<T>, key: T -> int): seq<T>
  {
    if s == [] then [] else Insert(s[|s| - 1], SortByKey(s[..|s| - 1], key), key)
  }

  lemma {:induction false} InsertPermutation<T>(x: T, t: seq<T>, key: T -> int)
    ensures multiset(Insert(x, t, key)) == multiset(t) + multiset{x}
  {
    if t != [] && key(t[|t| - 1]) > key(x) {
      assert t == t[..|t| - 1] + [t[|t| - 1]];
      InsertPermutation(x, t[..|t| - 1], key);
    }
  }

  /** Inserting below a bound every element respects keeps every key below it. */
  lemma {:induction false} InsertBounded<T>(x: T, t: seq<T>, key: T -> int, bound: int)
    requires key(x) <= bound && forall i :: 0 <= i < |t| ==> key(t[i]) <= bound
    ensures forall i :: 0 <= i < |Insert(x, t, key)| ==> key(Insert(x, t, key)[i]) <= bound
  {
    if t != [] && key(t[|t| - 1]) > key(x) {
      InsertBounded(x, t[..|t| - 1], key, bound);
    }
  }

  lemma {:induction false} InsertSorted<T>(x: T, t: seq<T>, key: T -> int)
    requires SortedBy(t, key)
    ensures SortedBy(Insert(x, t, key), key)
  {
    if t != [] && key(t[|t| - 1]) > key(x) {
      var init, last := t[..|t| - 1], t[|t| - 1];
      InsertSorted(x, init, key);
      InsertBounded(x, init, key, key(last));
    }
  }

  /** The stable sort is ascending by key. */
  lemma {:induction false} SortByKeySorted<T>(s: seq<T>, key: T -> int)
    ensures SortedBy(SortByKey(s, key), key)
  {
    if s != [] {
      SortByKeySorted(s[..|s| - 1], key);
      InsertSorted(s[|s| - 1], SortByKey(s[..|s| - 1], key), key);
    }
  }

  /** The stable sort is a permutation of its input: same elements, same length. */
  lemma {:induction false} SortByKeyPermutation<T>(s: seq<T>, key: T -> int)
    ensures multiset(SortByKey(s, key)) == multiset(s)
    ensures |SortByKey(s, key)| == |s|
  {
    if s != [] {
      var init, last := s[..|s| - 1], s[|s| - 1];
      SortByKeyPermutation(init, key);
      InsertPermutation(last, SortByKey(init, key), key);
      assert s == init + [last];
    }
    assert |multiset(SortByKey(s, key))| == |multiset(s)|;
  }

  /** Sorting keeps exactly the members of its input. */
  lemma SortByKeyMembers<T>(s: seq<T>, key: T -> int)
    ensures forall x :: x in SortByKey(s, key) <==> x in s
  {
    SortByKeyPermutation(s, key);
    forall x ensures x in SortByKey(s, key) <==> x in s {
      assert x in SortByKey(s, key) <==> x in multiset(SortByKey(s, key));
      assert x in s <==> x in multiset(s);
    }
  }

  /** The elements of s whose key is v, in their order in s. */
  function WithKey<T>(s: seq<T>, key: T -> int, v: int): seq<T>
  {
    if s == [] then []
    else WithKey(s[..|s| - 1], key, v) + if key(s[|s| - 1]) == v then [s[|s| - 1]] else []
  }

  /** Insertion appends x behind every element of its own key. */
  lemma {:induction false} InsertWithKey<T>(x: T, t: seq<T>, key: T -> int, v: int)
    ensures WithKey(Insert(x, t, key), key, v) == WithKey(t, key, v) + if key(x) == v then [x] else []
  {
    if t == [] {
      assert [x][..0] == [];
    } else if key(t[|t| - 1]) <= key(x) {
      assert (t + [x])[..|t|] == t;
    } else {
      var init, last := t[..|t| - 1], t[|t| - 1];
      InsertWithKey(x, init, key, v);
      var r := Insert(x, init, key) + [last];
      assert r[..|r| - 1] == Insert(x, init, key) && r[|r| - 1] == last;
    }
  }

  /**
   * The sort is stable: for every key value, the elements with that key
   * appear in the sorted order exactly as they appear in the input.
   */
  lemma {:induction false} SortByKeyStable<T>(s: seq<T>, key: T -> int, v: int)
    ensures WithKey(SortByKey(s, key), key, v) == WithKey(s, key, v)
  {
    if s != [] {
      SortByKeyStable(s[..|s| - 1], key, v);
      InsertWithKey(s[|s| - 1], SortByKey(s[..|s| - 1], key), key, v);
    }
  }

  /** A prefix of the sorted order holds the lowest keys: nothing after it scores less. */
  lemma SortedPrefixIsLowest<T>(s: seq<T>, key: T -> int, m: nat)
    requires m <= |s|
    ensures |SortByKey(s, key)| == |s|
    ensures forall i, j :: 0 <= i < m <= j < |s| ==>
      key(SortByKey(s, key)[i]) <= key(SortByKey(s, key)[j])
  {
    SortByKeySorted(s, key);
    SortByKeyPermutation(s, key);
  }

  lemma InsertPassesLarger<T>(x: T, p: seq<T>, j: nat, key: T -> int)
    requires 0 < j <= |p| && key(p[j - 1]) > key(x)
    ensures Insert(x, p[..j], key) + p[j..] == Insert(x, p[..j - 1], key) + p[j - 1..]
  {
    assert p[..j][..j - 1] == p[..j - 1];
    assert p[j - 1..] == [p[j - 1]] + p[j..];
  }

  lemma InsertStops<T>(x: T, p: seq<T>, j: nat, key: T -> int)
    requires j <= |p| && (j == 0 || key(p[j - 1]) <= key(x))
    ensures Insert(x, p[..j], key) == p[..j] + [x]
  {
  }

  /**
   * The array while x sinks into the sorted prefix p: p's first j elements,
   * then x, then the rest of p shifted up by one, then the untouched rest.
   */
  ghost predicate Sifting<T>(a: seq<T>, p: seq<T>, x: T, rest: seq<T>, j: nat)
  {
    j <= |p| && |a| == |p| + 1 + |rest| &&
    a[..j] == p[..j] && a[j] == x && a[j + 1..|p| + 1] == p[j..] && a[|p| + 1..] == rest
  }

  /** Swapping x with its left neighbour moves the sift one place down. */
  lemma SiftStep<T>(a: seq<T>, p: seq<T>, x: T, rest: seq<T>, j: nat)
    requires Sifting(a, p, x, rest, j) && j > 0
    ensures a[j - 1] == p[j - 1]
    ensures Sifting(a[j - 1 := x][j := a[j - 1]], p, x, rest, j - 1)
  {
    var b := a[j - 1 := x][j := a[j - 1]];
    assert a[j - 1] == a[..j][j - 1] == p[j - 1];
    assert b[..j - 1] == a[..j][..j - 1] == p[..j][..j - 1];
    assert b[j..|p| + 1] == [p[j - 1]] + a[j + 1..|p| + 1];
    assert p[j - 1..] == [p[j - 1]] + p[j..];
    assert b[|p| + 1..] == a[|p| + 1..];
  }

  /** Where the sift stops, the prefix reads p with x inserted at j. */
  lemma SiftedPrefix<T>(a: seq<T>, p: seq<T>, x: T, rest: seq<T>, j: nat)
    requires Sifting(a, p, x, rest, j)
    ensures a[..|p| + 1] == p[..j] + [x] + p[j..]
  {
    assert a[..|p| + 1] == a[..j] + [a[j]] + a[j + 1..|p| + 1];
  }

  /** Sifts a[i] down into the sorted prefix a[..i]. */
  method SiftDown<T>(a: array<T>, i: nat, key: T -> int)
    requires i < a.Length
    modifies a
    ensures a[..i + 1] == Insert(old(a[i]), old(a[..i]), key)
    ensures a[i + 1..] == old(a[i + 1..])
  {
    var x := a[i];
    ghost var p, rest := a[..i], a[i + 1..];
    assert a[..i + 1] == p + [x];
    var j := i;
    while j > 0 && key(a[j - 1]) > key(x)
      invariant 0 <= j <= i
      invariant Sifting(a[..], p, x, rest, j)
      invariant Insert(x, p, key) == Insert(x, p[..j], key) + p[j..]
    {
      ghost var before := a[..];
      SiftStep(before, p, x, rest, j);
      InsertPassesLarger(x, p, j, key);
      a[j - 1], a[j] := a[j], a[j - 1];
      assert a[..] == before[j - 1 := x][j := before[j - 1]];
      j := j - 1;
    }
    InsertStops(x, p, j, key);
    SiftedPrefix(a[..], p, x, rest, j);
    assert a[..i + 1] == Insert(x, p, key);
  }

  /** Insertion sort of a list in place, one element at a time. */
  method SortInPlace<T>(a: array<T>, key: T -> int)
    modifies a
    ensures a[..] == SortByKey(old(a[..]), key)
  {
    ghost var s := a[..];
    var i := 0;
    while i < a.Length
      invariant 0 <= i <= a.Length
      invariant a[..i] == SortByKey(s[..i], key)
      invariant a[i..] == s[i..]
    {
      assert a[i] == a[i..][0] && s[i] == s[i..][0];
      assert a[i + 1..] == a[i..][1..] && s[i + 1..] == s[i..][1..];
      SiftDown(a, i, key);
      assert s[..i + 1][..i] == s[..i];
      i := i + 1;
    }
    assert a[..] == a[..a.Length];
    assert s == s[..a.Length];
  }

  /** `Collections.min`: the first element whose score is least. */
  method FirstMin<T>(s: seq<T>, key: T -> int) returns (best: T, k: nat)
    requires |s| > 0
    ensures k < |s| && best == s[k]
    ensures forall j :: 0 <= j < |s| ==> key(best) <= key(s[j])
    ensures forall j :: 0 <= j < k ==> key(s[j]) > key(best)
  {
    best, k := s[0], 0;
    for i := 1 to |s|
      invariant k < i && best == s[k]
      invariant forall j :: 0 <= j < i ==> key(best) <= key(s[j])
      invariant forall j :: 0 <= j < k ==> key(s[j]) > key(best)
    {
      if key(s[i]) < key(best) {
        best, k := s[i], i;
      }
    }
  }
}
