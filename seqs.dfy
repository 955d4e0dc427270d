/** Order-preserving selection and newest-first sorting of row sequences:
    the `filter` calls of the pages and the `eq`/`order` clauses of the store's queries. */
module Seqs {

  /** The elements of `xs` whose key is `k`, in their original order. */
  function Select<T(!new), K(==)>(xs: seq<T>, key: T -> K, k: K): (r: seq<T>)
    ensures |r| <= |xs|
    ensures forall x :: x in r <==> x in xs && key(x) == k
  {
    if xs == [] then []
    else
      var init := Select(xs[..|xs| - 1], key, k);
      assert xs == xs[..|xs| - 1] + [xs[|xs| - 1]];
      if key(xs[|xs| - 1]) == k then init + [xs[|xs| - 1]] else init
  }

  /** The elements of `xs` that satisfy `p`, in their original order. */
  function Filter<T(!new)>(xs: seq<T>, p: T -> bool): (r: seq<T>)
    ensures |r| <= |xs|
    ensures forall x :: x in r <==> x in xs && p(x)
  {
    Select(xs, p, true)
  }

  /** Selecting from a sequence grown by one element selects that element or not. */
  lemma SelectSnoc<T(!new), K>(xs: seq<T>, x: T, key: T -> K, k: K)
    ensures Select(xs + [x], key, k) == Select(xs, key, k) + (if key(x) == k then [x] else [])
  {
    assert (xs + [x])[..|xs|] == xs;
  }

  /** No element has the key, so nothing is selected. */
  lemma SelectEmpty<T(!new), K>(xs: seq<T>, key: T -> K, k: K)
    requires forall x :: x in xs ==> key(x) != k
    ensures Select(xs, key, k) == []
  {
  }

  /** `xs.map(f)`. */
  function Map<T, U>(xs: seq<T>, f: T -> U): (r: seq<U>)
    ensures |r| == |xs|
    ensures forall i :: 0 <= i < |xs| ==> r[i] == f(xs[i])
  {
    seq(|xs|, i requires 0 <= i < |xs| => f(xs[i]))
  }

  /** The image of a sequence holds exactly the images of its elements. */
  lemma MapMembers<T, U>(xs: seq<T>, f: T -> U, y: U)
    ensures y in Map(xs, f) <==> exists x :: x in xs && y == f(x)
  {
    var r := Map(xs, f);
    if y in r {
      var i :| 0 <= i < |r| && r[i] == y;
      assert xs[i] in xs;
    }
    if exists x :: x in xs && y == f(x) {
      var x :| x in xs && y == f(x);
      var i :| 0 <= i < |xs| && xs[i] == x;
      assert r[i] == y;
    }
  }

  /** `xs` is ordered by `key`, largest first (`ORDER BY key DESC`). */
  predicate NonIncreasing<T>(xs: seq<T>, key: T -> int) {
    forall i, j :: 0 <= i < j < |xs| ==> key(xs[i]) >= key(xs[j])
  }

  /** Selection keeps the order of what it selects. */
  lemma {:induction false} SelectKeepsOrder<T(!new), K>(xs: seq<T>, key: T -> K, k: K, ord: T -> int)
    requires NonIncreasing(xs, ord)
    ensures NonIncreasing(Select(xs, key, k), ord)
  {
    if xs != [] {
      var init, x := xs[..|xs| - 1], xs[|xs| - 1];
      assert xs == init + [x];
      SelectKeepsOrder(init, key, k, ord);
      SelectSnoc(init, x, key, k);
      var s := Select(init, key, k);
      if key(x) == k {
        forall i, j | 0 <= i < j < |s| + 1
          ensures ord((s + [x])[i]) >= ord((s + [x])[j])
        {
          if j == |s| {
            assert s[i] in init;
            var m :| 0 <= m < |init| && init[m] == s[i];
            assert xs[m] == s[i] && xs[|xs| - 1] == x;
          }
        }
      }
    }
  }

  /** Inserts `x` into a largest-first sequence before the first smaller element. */
  function InsertDesc<T(!new)>(x: T, xs: seq<T>, key: T -> int): (r: seq<T>)
    requires NonIncreasing(xs, key)
    ensures NonIncreasing(r, key)
    ensures multiset(r) == multiset(xs) + multiset{x}
    ensures |r| == |xs| + 1
    ensures forall y :: y in r ==> y == x || y in xs
  {
    if xs == [] || key(x) >= key(xs[0]) then
      ConsNonIncreasing(x, xs, key);
      [x] + xs
    else
      var rest := InsertDesc(x, xs[1..], key);
      assert xs == [xs[0]] + xs[1..];
      forall y | y in rest ensures key(y) <= key(xs[0]) {
        if y != x {
          var k :| 0 <= k < |xs[1..]| && xs[1..][k] == y;
          assert xs[k + 1] == y;
        }
      }
      ConsNonIncreasing(xs[0], rest, key);
      [xs[0]] + rest
  }

  /** An element no smaller than everything after it can lead a largest-first sequence. */
  lemma ConsNonIncreasing<T>(h: T, xs: seq<T>, key: T -> int)
    requires NonIncreasing(xs, key)
    requires forall y :: y in xs ==> key(y) <= key(h)
    ensures NonIncreasing([h] + xs, key)
  {
    var r := [h] + xs;
    forall i, j | 0 <= i < j < |r| ensures key(r[i]) >= key(r[j]) {
      assert r[j] == xs[j - 1];
      if i > 0 {
        assert r[i] == xs[i - 1];
      }
    }
  }

  /** The rows of `xs` ordered by `key`, largest first (insertion sort; the
      order among equal keys, which the store leaves open, is fixed arbitrarily). */
  function SortDesc<T(!new)>(xs: seq<T>, key: T -> int): (r: seq<T>)
    ensures NonIncreasing(r, key)
    ensures multiset(r) == multiset(xs)
    ensures |r| == |xs|
  {
    if xs == [] then []
    else
      assert xs == [xs[0]] + xs[1..];
      InsertDesc(xs[0], SortDesc(xs[1..], key), key)
  }

  /** Sorting neither adds nor drops an element. */
  lemma SortDescSameElements<T(!new)>(xs: seq<T>, key: T -> int, x: T)
    ensures x in SortDesc(xs, key) <==> x in xs
  {
    assert x in multiset(SortDesc(xs, key)) <==> x in multiset(xs);
  }
}
