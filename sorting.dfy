/** LINQ's Where and OrderBy as functions on sequences. OrderBy is a stable sort:
    elements with equal keys keep their input order. It is modelled by an insertion
    sort that places each element before every later element with a key that is
    not smaller. */
module Sorting {

  /** Enumerable.Where: the elements satisfying `p`, in input order. */
  function Filter<T>(xs: seq<T>, p: T -> bool): (r: seq<T>)
    ensures |r| <= |xs|
    ensures forall i :: 0 <= i < |r| ==> p(r[i])
  {
    if xs == [] then [] else (if p(xs[0]) then [xs[0]] else []) + Filter(xs[1..], p)
  }

  lemma FilterCons<T>(x: T, xs: seq<T>, p: T -> bool)
    ensures Filter([x] + xs, p) == (if p(x) then [x] else []) + Filter(xs, p)
  {
    assert ([x] + xs)[1..] == xs;
  }

  /** Filtering a concatenation filters each part and keeps them in order. */
  lemma {:induction false} FilterAppend<T>(xs: seq<T>, ys: seq<T>, p: T -> bool)
    ensures Filter(xs + ys, p) == Filter(xs, p) + Filter(ys, p)
  {
    if xs == [] {
      assert xs + ys == ys;
    } else {
      var h := if p(xs[0]) then [xs[0]] else [];
      assert xs + ys == [xs[0]] + (xs[1..] + ys);
      FilterCons(xs[0], xs[1..] + ys, p);
      FilterAppend(xs[1..], ys, p);
      FilterCons(xs[0], xs[1..], p);
      assert xs == [xs[0]] + xs[1..];
      assert h + (Filter(xs[1..], p) + Filter(ys, p)) == (h + Filter(xs[1..], p)) + Filter(ys, p);
    }
  }

  /** Filter keeps every element satisfying `p` as often as it occurs, and nothing else. */
  lemma {:induction false} FilterCount<T>(xs: seq<T>, p: T -> bool)
    ensures forall x :: multiset(Filter(xs, p))[x] == if p(x) then multiset(xs)[x] else 0
  {
    if xs != [] {
      FilterCount(xs[1..], p);
      assert xs == [xs[0]] + xs[1..];
    }
  }

  /** `le` is a total order on keys: total, antisymmetric and transitive. */
  ghost predicate TotalOrder<K(!new)>(le: (K, K) -> bool) {
    (forall a, b :: le(a, b) || le(b, a))
    && (forall a, b :: le(a, b) && le(b, a) ==> a == b)
    && (forall a, b, c :: le(a, b) && le(b, c) ==> le(a, c))
  }

  ghost predicate SortedBy<T, K>(s: seq<T>, key: T -> K, le: (K, K) -> bool) {
    forall i, j :: 0 <= i < j < |s| ==> le(key(s[i]), key(s[j]))
  }

  function HasKey<T, K(==)>(key: T -> K, k: K): T -> bool {
    x => key(x) == k
  }

  /** The elements of `s` whose key is `k`, in the order `s` has them. */
  function WithKey<T, K(==)>(s: seq<T>, key: T -> K, k: K): seq<T> {
    Filter(s, HasKey(key, k))
  }

  function Insert<T, K>(x: T, ys: seq<T>, key: T -> K, le: (K, K) -> bool): (r: seq<T>)
    ensures |r| == |ys| + 1
  {
    if ys == [] || le(key(x), key(ys[0])) then [x] + ys
    else [ys[0]] + Insert(x, ys[1..], key, le)
  }

  /** Enumerable.OrderBy(key, comparer), the comparer being `le`. */
  function SortBy<T, K>(xs: seq<T>, key: T -> K, le: (K, K) -> bool): (r: seq<T>)
    ensures |r| == |xs|
  {
    if xs == [] then [] else Insert(xs[0], SortBy(xs[1..], key, le), key, le)
  }

  lemma {:induction false} InsertCount<T, K>(x: T, ys: seq<T>, key: T -> K, le: (K, K) -> bool)
    ensures multiset(Insert(x, ys, key, le)) == multiset{x} + multiset(ys)
  {
    if !(ys == [] || le(key(x), key(ys[0]))) {
      InsertCount(x, ys[1..], key, le);
      assert ys == [ys[0]] + ys[1..];
    }
  }

  /** Sorting only rearranges: the result is a permutation of the input. */
  lemma {:induction false} SortByPermutes<T, K>(xs: seq<T>, key: T -> K, le: (K, K) -> bool)
    ensures multiset(SortBy(xs, key, le)) == multiset(xs)
  {
    if xs != [] {
      SortByPermutes(xs[1..], key, le);
      InsertCount(xs[0], SortBy(xs[1..], key, le), key, le);
      assert xs == [xs[0]] + xs[1..];
    }
  }

  lemma {:induction false} InsertAbove<T, K>(x: T, ys: seq<T>, key: T -> K, le: (K, K) -> bool, b: K)
    requires le(b, key(x)) && forall j :: 0 <= j < |ys| ==> le(b, key(ys[j]))
    ensures forall i :: 0 <= i < |ys| + 1 ==> le(b, key(Insert(x, ys, key, le)[i]))
  {
    if !(ys == [] || le(key(x), key(ys[0]))) {
      InsertAbove(x, ys[1..], key, le, b);
    }
  }

  lemma {:induction false} InsertSorted<T, K(!new)>(x: T, ys: seq<T>, key: T -> K, le: (K, K) -> bool)
    requires TotalOrder(le) && SortedBy(ys, key, le)
    ensures SortedBy(Insert(x, ys, key, le), key, le)
  {
    if ys == [] || le(key(x), key(ys[0])) {
      forall j | 0 <= j < |ys| ensures le(key(x), key(ys[j])) {
        if j > 0 {
          assert le(key(ys[0]), key(ys[j]));
        }
      }
    } else {
      assert le(key(ys[0]), key(x));
      InsertSorted(x, ys[1..], key, le);
      InsertAbove(x, ys[1..], key, le, key(ys[0]));
    }
  }

  /** The result of SortBy is in ascending key order. */
  lemma {:induction false} SortBySorted<T, K(!new)>(xs: seq<T>, key: T -> K, le: (K, K) -> bool)
    requires TotalOrder(le)
    ensures SortedBy(SortBy(xs, key, le), key, le)
  {
    if xs != [] {
      SortBySorted(xs[1..], key, le);
      InsertSorted(xs[0], SortBy(xs[1..], key, le), key, le);
    }
  }

  lemma {:induction false} InsertWithKey<T, K(!new)>(x: T, ys: seq<T>, key: T -> K, le: (K, K) -> bool, k: K)
    requires TotalOrder(le)
    ensures WithKey(Insert(x, ys, key, le), key, k)
            == (if key(x) == k then [x] else []) + WithKey(ys, key, k)
  {
    var p := HasKey(key, k);
    if ys == [] || le(key(x), key(ys[0])) {
      FilterCons(x, ys, p);
    } else {
      assert le(key(x), key(x));
      InsertWithKey(x, ys[1..], key, le, k);
      FilterCons(ys[0], Insert(x, ys[1..], key, le), p);
      FilterCons(ys[0], ys[1..], p);
      assert ys == [ys[0]] + ys[1..];
    }
  }

  /** OrderBy is stable: for every key, the elements with that key come out in
      the order they went in. */
  lemma {:induction false} SortByStable<T, K(!new)>(xs: seq<T>, key: T -> K, le: (K, K) -> bool, k: K)
    requires TotalOrder(le)
    ensures WithKey(SortBy(xs, key, le), key, k) == WithKey(xs, key, k)
  {
    if xs != [] {
      SortByStable(xs[1..], key, le, k);
      InsertWithKey(xs[0], SortBy(xs[1..], key, le), key, le, k);
      FilterCons(xs[0], xs[1..], HasKey(key, k));
      assert xs == [xs[0]] + xs[1..];
    }
  }
}
