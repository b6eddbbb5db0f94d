/**
 Sequence and map helpers for the handlers: the array search `Array.prototype.find`,
 the order-keeping `Array.prototype.filter`, and the two map edits the review
 handlers perform, each with the property a caller relies on.
 */
module Seqs {

  datatype Option<T> = None | Some(value: T)

  /** `a` is `b` with some elements deleted and the rest kept in order. */
  predicate Subseq<T(==)>(a: seq<T>, b: seq<T>)
    decreases |b|
  {
    |a| == 0 ||
    (|b| > 0 && ((a[0] == b[0] && Subseq(a[1..], b[1..])) || Subseq(a, b[1..])))
  }

  /** Index of the first element satisfying `p`, as `find` visits them. */
  function FindIndex<T>(xs: seq<T>, p: T -> bool): (r: Option<nat>)
    ensures r.None? <==> forall i :: 0 <= i < |xs| ==> !p(xs[i])
    ensures r.Some? ==> r.value < |xs| && p(xs[r.value])
    ensures r.Some? ==> forall j :: 0 <= j < r.value ==> !p(xs[j])
  {
    if |xs| == 0 then None
    else if p(xs[0]) then Some(0)
    else match FindIndex(xs[1..], p)
      case None => None
      case Some(i) => Some(i + 1)
  }

  /** The elements satisfying `keep`, each as often as in `xs`, in their original order. */
  function Filter<T(==,!new)>(xs: seq<T>, keep: T -> bool): (r: seq<T>)
    ensures forall x :: x in r <==> x in xs && keep(x)
    ensures forall x :: multiset(r)[x] == (if keep(x) then multiset(xs)[x] else 0)
    ensures Subseq(r, xs)
  {
    if |xs| == 0 then []
    else
      var rest := Filter(xs[1..], keep);
      assert xs == [xs[0]] + xs[1..];
      if keep(xs[0]) then [xs[0]] + rest else rest
  }

  /** `m'` is `m` with `k` bound to `v` and every other entry left as it was. */
  ghost predicate Overwrites<K(!new), V>(m: map<K, V>, m': map<K, V>, k: K, v: V) {
    && k in m' && m'[k] == v
    && (forall u :: u != k ==> (u in m' <==> u in m))
    && (forall u :: u in m && u != k ==> m'[u] == m[u])
  }

  /** `m'` is `m` without the key `k`; every other entry is left as it was. */
  ghost predicate Removes<K(!new), V>(m: map<K, V>, m': map<K, V>, k: K) {
    && k !in m'
    && (forall u :: u != k ==> (u in m' <==> u in m))
    && (forall u :: u in m' ==> m'[u] == m[u])
  }
}
