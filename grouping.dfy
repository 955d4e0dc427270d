/** Grouping a sequence by a key, as the pages do with `reduce` into a record
    (`acc[key] ??= []; acc[key].push(x)`) or with a `Map` keyed by question id.
    Groups are listed in the order their keys were first inserted, which is the
    iteration order of `Object.entries` and of `Map.values`. */
module Grouping {
  import opened Seqs

  predicate Distinct<K(==)>(ks: seq<K>) {
    forall i, j :: 0 <= i < j < |ks| ==> ks[i] != ks[j]
  }

  /** The distinct keys of `xs`, in order of first occurrence. */
  function Keys<T(!new), K(==,!new)>(xs: seq<T>, key: T -> K): (r: seq<K>)
    ensures Distinct(r)
    ensures forall k :: k in r <==> exists x :: x in xs && key(x) == k
    ensures |r| <= |xs|
  {
    if xs == [] then []
    else
      var init := Keys(xs[..|xs| - 1], key);
      var k := key(xs[|xs| - 1]);
      assert xs == xs[..|xs| - 1] + [xs[|xs| - 1]];
      if k in init then init else init + [k]
  }

  /** Keys of a sequence grown by one element: the new element's key is appended
      when it was not seen before. */
  lemma KeysSnoc<T(!new), K(!new)>(xs: seq<T>, x: T, key: T -> K)
    ensures Keys(xs + [x], key) ==
      if key(x) in Keys(xs, key) then Keys(xs, key) else Keys(xs, key) + [key(x)]
  {
    assert (xs + [x])[..|xs|] == xs;
  }

  /** The reduce: each element is pushed onto the group of its key, creating the
      group on first sight. */
  function GroupBy<T(!new), K(==,!new)>(xs: seq<T>, key: T -> K): (g: map<K, seq<T>>)
    ensures forall k :: k in g <==> k in Keys(xs, key)
    ensures forall k :: k in g ==> g[k] == Select(xs, key, k)
  {
    if xs == [] then map[]
    else
      var init, x := xs[..|xs| - 1], xs[|xs| - 1];
      assert xs == init + [x];
      var g := GroupBy(init, key);
      KeysSnoc(init, x, key);
      SelectSnoc(init, x, key, key(x));
      SelectOthers(init, x, key);
      if key(x) in g then
        g[key(x) := g[key(x)] + [x]]
      else
        SelectEmpty(init, key, key(x));
        g[key(x) := [x]]
  }

  /** Adding an element leaves the selections for every other key alone. */
  lemma SelectOthers<T(!new), K>(init: seq<T>, x: T, key: T -> K)
    ensures forall k :: k != key(x) ==> Select(init + [x], key, k) == Select(init, key, k)
  {
    forall k | k != key(x) ensures Select(init + [x], key, k) == Select(init, key, k) {
      SelectSnoc(init, x, key, k);
    }
  }

  /** The sum of the sizes of the groups listed in `ks`. */
  function GroupSizes<T, K(==)>(g: map<K, seq<T>>, ks: seq<K>): nat
    requires forall k :: k in ks ==> k in g
  {
    if ks == [] then 0
    else GroupSizes(g, ks[..|ks| - 1]) + |g[ks[|ks| - 1]]|
  }

  /** How often `k` occurs in `ks`. */
  function Occurrences<K(==)>(ks: seq<K>, k: K): (n: nat)
    ensures k !in ks ==> n == 0
  {
    if ks == [] then 0
    else Occurrences(ks[..|ks| - 1], k) + (if ks[|ks| - 1] == k then 1 else 0)
  }

  lemma {:induction false} OccurrencesOfDistinct<K>(ks: seq<K>, k: K)
    requires Distinct(ks)
    ensures Occurrences(ks, k) == if k in ks then 1 else 0
  {
    if ks != [] {
      var init := ks[..|ks| - 1];
      assert ks == init + [ks[|ks| - 1]];
      OccurrencesOfDistinct(init, k);
    }
  }

  /** Adding one element to `xs` adds one to the sizes of the groups of its key
      listed in `ks`. */
  lemma {:induction false} GroupSizesSnoc<T(!new), K(!new)>(xs: seq<T>, x: T, key: T -> K, ks: seq<K>)
    requires forall k :: k in ks ==> k in Keys(xs, key)
    ensures forall k :: k in ks ==> k in Keys(xs + [x], key)
    ensures GroupSizes(GroupBy(xs + [x], key), ks) == GroupSizes(GroupBy(xs, key), ks) + Occurrences(ks, key(x))
  {
    KeysSnoc(xs, x, key);
    if ks != [] {
      var init, k := ks[..|ks| - 1], ks[|ks| - 1];
      GroupSizesSnoc(xs, x, key, init);
      SelectSnoc(xs, x, key, k);
    }
  }

  /** Every element lands in exactly one group: the sizes of all groups add up
      to the number of elements. */
  lemma {:induction false} GroupSizesCoverAll<T(!new), K(!new)>(xs: seq<T>, key: T -> K)
    ensures GroupSizes(GroupBy(xs, key), Keys(xs, key)) == |xs|
  {
    if xs != [] {
      var init, x := xs[..|xs| - 1], xs[|xs| - 1];
      assert xs == init + [x];
      GroupSizesCoverAll(init, key);
      var ks := Keys(init, key);
      GroupSizesSnoc(init, x, key, ks);
      OccurrencesOfDistinct(ks, key(x));
      KeysSnoc(init, x, key);
      if key(x) !in ks {
        NewGroupSize(init, x, key);
      }
    }
  }

  /** An element with a new key opens a group of its own, of size one. */
  lemma NewGroupSize<T(!new), K(!new)>(init: seq<T>, x: T, key: T -> K)
    requires key(x) !in Keys(init, key)
    ensures Keys(init + [x], key) == Keys(init, key) + [key(x)]
    ensures GroupSizes(GroupBy(init + [x], key), Keys(init + [x], key)) ==
            GroupSizes(GroupBy(init + [x], key), Keys(init, key)) + 1
  {
    var ks := Keys(init, key);
    var g := GroupBy(init + [x], key);
    KeysSnoc(init, x, key);
    assert (ks + [key(x)])[..|ks|] == ks;
    SelectSnoc(init, x, key, key(x));
    SelectEmpty(init, key, key(x));
    assert g[key(x)] == [x];
  }

  /** Each group holds exactly the elements with its key, in their original order;
      an element with key `k` is in group `k` and in no other. */
  lemma GroupMembership<T(!new), K(!new)>(xs: seq<T>, key: T -> K, x: T, k: K)
    requires x in xs
    ensures key(x) in GroupBy(xs, key) && x in GroupBy(xs, key)[key(x)]
    ensures k in GroupBy(xs, key) && x in GroupBy(xs, key)[k] ==> k == key(x)
  {
  }
}
