/**
 * The contract of JavaScript's Array.prototype.sort: a stable sort. Every comparator in the
 * modelled code compares one or two numbers, so a comparator is given here by the pair of
 * integers it compares; a descending comparison is a negated key.
 */
module StableSort {

  type Key = (int, int)

  predicate KeyLeq(a: Key, b: Key) {
    a.0 < b.0 || (a.0 == b.0 && a.1 <= b.1)
  }

  predicate KeyLess(a: Key, b: Key) {
    a.0 < b.0 || (a.0 == b.0 && a.1 < b.1)
  }

  ghost predicate Sorted<T>(xs: seq<T>, key: T -> Key) {
    forall i, j :: 0 <= i < j < |xs| ==> KeyLeq(key(xs[i]), key(xs[j]))
  }

  ghost predicate StrictlySorted<T>(xs: seq<T>, key: T -> Key) {
    forall i, j :: 0 <= i < j < |xs| ==> KeyLess(key(xs[i]), key(xs[j]))
  }

  /** Puts x before the elements of ys that do not compare smaller. */
  function Insert<T>(x: T, ys: seq<T>, key: T -> Key): (r: seq<T>)
  {
    if ys == [] || KeyLeq(key(x), key(ys[0])) then [x] + ys
    else [ys[0]] + Insert(x, ys[1..], key)
  }

  function Sort<T>(xs: seq<T>, key: T -> Key): (r: seq<T>)
  {
    if xs == [] then [] else Insert(xs[0], Sort(xs[1..], key), key)
  }

  lemma {:induction false} InsertIsSorted<T>(x: T, ys: seq<T>, key: T -> Key)
    requires Sorted(ys, key)
    ensures multiset(Insert(x, ys, key)) == multiset{x} + multiset(ys)
    ensures Sorted(Insert(x, ys, key), key)
  {
    if ys == [] || KeyLeq(key(x), key(ys[0])) {
    } else {
      InsertIsSorted(x, ys[1..], key);
      assert ys == [ys[0]] + ys[1..];
      var r := Insert(x, ys[1..], key);
      forall j | 0 <= j < |r| ensures KeyLeq(key(ys[0]), key(r[j])) {
        assert r[j] in multiset(r);
        if r[j] != x { assert r[j] in multiset(ys[1..]); }
      }
    }
  }

  lemma {:induction false} SortIsSortedPermutation<T>(xs: seq<T>, key: T -> Key)
    ensures multiset(Sort(xs, key)) == multiset(xs)
    ensures Sorted(Sort(xs, key), key)
  {
    if xs != [] {
      SortIsSortedPermutation(xs[1..], key);
      InsertIsSorted(xs[0], Sort(xs[1..], key), key);
      assert xs == [xs[0]] + xs[1..];
    }
  }

  lemma SortKeepsLength<T>(xs: seq<T>, key: T -> Key)
    ensures |Sort(xs, key)| == |xs|
    ensures forall x :: x in Sort(xs, key) <==> x in xs
  {
    SortIsSortedPermutation(xs, key);
    assert |multiset(Sort(xs, key))| == |multiset(xs)|;
    forall x ensures x in Sort(xs, key) <==> x in xs {
      assert x in multiset(Sort(xs, key)) <==> x in multiset(xs);
    }
  }

  /** The subsequence of elements whose key is k. */
  function WithKey<T>(xs: seq<T>, key: T -> Key, k: Key): seq<T> {
    if xs == [] then []
    else (if key(xs[0]) == k then [xs[0]] else []) + WithKey(xs[1..], key, k)
  }

  lemma {:induction false} InsertIsStable<T>(x: T, ys: seq<T>, key: T -> Key, k: Key)
    ensures WithKey(Insert(x, ys, key), key, k) == WithKey([x] + ys, key, k)
  {
    assert ([x] + ys)[1..] == ys;
    if ys == [] || KeyLeq(key(x), key(ys[0])) {
    } else {
      InsertIsStable(x, ys[1..], key, k);
      var r := Insert(x, ys[1..], key);
      assert ([ys[0]] + r)[1..] == r;
      assert ([x] + ys[1..])[1..] == ys[1..];
    }
  }

  /** Elements with equal keys keep their order. */
  lemma {:induction false} SortIsStable<T>(xs: seq<T>, key: T -> Key, k: Key)
    ensures WithKey(Sort(xs, key), key, k) == WithKey(xs, key, k)
  {
    if xs != [] {
      SortIsStable(xs[1..], key, k);
      var r := Sort(xs[1..], key);
      InsertIsStable(xs[0], r, key, k);
      assert ([xs[0]] + r)[1..] == r;
    }
  }

  /** The elements that pass, in their order. */
  function Filtered<T>(xs: seq<T>, keep: T -> bool): seq<T> {
    if xs == [] then []
    else Filtered(xs[..|xs| - 1], keep) + if keep(xs[|xs| - 1]) then [xs[|xs| - 1]] else []
  }

  lemma {:induction false} WithKeyAppend<T>(xs: seq<T>, x: T, key: T -> Key, k: Key)
    ensures WithKey(xs + [x], key, k) == WithKey(xs, key, k) + if key(x) == k then [x] else []
  {
    if xs != [] {
      WithKeyAppend(xs[1..], x, key, k);
      assert (xs + [x])[1..] == xs[1..] + [x];
    }
  }

  lemma {:induction false} FilteredWithKey<T>(xs: seq<T>, key: T -> Key, keep: T -> bool, k: Key)
    requires forall x :: x in xs ==> (keep(x) <==> key(x) == k)
    ensures Filtered(xs, keep) == WithKey(xs, key, k)
  {
    if xs != [] {
      var init, x := xs[..|xs| - 1], xs[|xs| - 1];
      assert xs == init + [x];
      FilteredWithKey(init, key, keep, k);
      WithKeyAppend(init, x, key, k);
    }
  }

  /** Sorting does not change the order of those that all have one key. */
  lemma SortKeepsTies<T>(xs: seq<T>, key: T -> Key, keep: T -> bool, k: Key)
    requires forall x :: x in xs ==> (keep(x) <==> key(x) == k)
    ensures Filtered(Sort(xs, key), keep) == Filtered(xs, keep)
  {
    SortIsSortedPermutation(xs, key);
    forall x | x in Sort(xs, key) ensures x in xs {
      assert x in multiset(Sort(xs, key));
    }
    SortIsStable(xs, key, k);
    FilteredWithKey(xs, key, keep, k);
    FilteredWithKey(Sort(xs, key), key, keep, k);
  }

  lemma TailMembers<T>(xs: seq<T>, key: T -> Key)
    requires StrictlySorted(xs, key) && xs != []
    ensures forall x :: x in xs[1..] <==> x in xs && x != xs[0]
  {
    assert xs == [xs[0]] + xs[1..];
    forall i | 0 <= i < |xs[1..]| ensures xs[1..][i] != xs[0] {
      assert xs[1..][i] == xs[i + 1];
    }
  }

  /** Two strictly sorted lists of the same elements are the same list. */
  lemma {:induction false} StrictlySortedUnique<T>(xs: seq<T>, ys: seq<T>, key: T -> Key)
    requires StrictlySorted(xs, key) && StrictlySorted(ys, key)
    requires forall x :: x in xs <==> x in ys
    ensures xs == ys
  {
    assert xs != [] ==> xs[0] in ys;
    assert ys != [] ==> ys[0] in xs;
    if xs != [] {
      var i :| 0 <= i < |ys| && ys[i] == xs[0];
      var j :| 0 <= j < |xs| && xs[j] == ys[0];
      assert xs[0] == ys[0];
      TailMembers(xs, key);
      TailMembers(ys, key);
      StrictlySortedUnique(xs[1..], ys[1..], key);
      assert xs == [xs[0]] + xs[1..];
      assert ys == [ys[0]] + ys[1..];
    }
  }

  lemma Twice<T>(xs: seq<T>, i: nat, j: nat)
    requires i < j < |xs| && xs[i] == xs[j]
    ensures multiset(xs)[xs[i]] >= 2
  {
    assert xs == xs[..j] + xs[j..];
    assert xs[..j][i] == xs[i] && xs[j..][0] == xs[i];
    assert xs[i] in multiset(xs[..j]) && xs[i] in multiset(xs[j..]);
  }

  lemma {:induction false} Once<T>(xs: seq<T>, x: T)
    requires forall i, j :: 0 <= i < j < |xs| ==> xs[i] != xs[j]
    ensures multiset(xs)[x] <= 1
  {
    if xs != [] {
      Once(xs[1..], x);
      assert xs == [xs[0]] + xs[1..];
    }
  }

  /** A sorted permutation of a list with distinct keys is strictly sorted. */
  lemma DistinctKeysSortStrictly<T>(xs: seq<T>, sorted: seq<T>, key: T -> Key)
    requires forall i, j :: 0 <= i < j < |xs| ==> key(xs[i]) != key(xs[j])
    requires multiset(sorted) == multiset(xs) && Sorted(sorted, key)
    ensures StrictlySorted(sorted, key)
  {
    forall i, j | 0 <= i < j < |sorted| ensures KeyLess(key(sorted[i]), key(sorted[j])) {
      var a, b := sorted[i], sorted[j];
      assert a in multiset(sorted) && b in multiset(sorted);
      var p :| 0 <= p < |xs| && xs[p] == a;
      var q :| 0 <= q < |xs| && xs[q] == b;
      if a == b {
        Twice(sorted, i, j);
        Once(xs, a);
      }
    }
  }
}
