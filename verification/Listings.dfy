/**
  Iteration orders. Hash maps and hash sets yield their contents in an unspecified
  order; a "listing" is any sequence that holds each element exactly once. What is
  proved about bytes written from a listing holds for every order.
 */
module Listings {

  ghost predicate Distinct<T(!new)>(xs: seq<T>) {
    forall i, j | 0 <= i < j < |xs| :: xs[i] != xs[j]
  }

  ghost predicate DistinctKeys<K(!new), V(!new)>(pairs: seq<(K, V)>) {
    forall i, j | 0 <= i < j < |pairs| :: pairs[i].0 != pairs[j].0
  }

  /** `xs` holds each element of `s` exactly once. */
  ghost predicate ListsSet<T(!new)>(xs: seq<T>, s: set<T>) {
    Distinct(xs) && forall x :: x in xs <==> x in s
  }

  /** `pairs` holds each binding of `m` exactly once. */
  ghost predicate ListsMap<K(!new), V(!new)>(pairs: seq<(K, V)>, m: map<K, V>) {
    && DistinctKeys(pairs)
    && (forall p | p in pairs :: p.0 in m && m[p.0] == p.1)
    && (forall k | k in m :: (k, m[k]) in pairs)
  }

  /** Inserting the elements one by one into an empty set. */
  function SetOf<T(==)>(xs: seq<T>): (s: set<T>) {
    set x | x in xs
  }

  /** Inserting the bindings one by one into an empty map; a later one replaces an earlier one. */
  function MapOf<K(==), V>(pairs: seq<(K, V)>): (m: map<K, V>)
    ensures forall k | k in m :: (k, m[k]) in pairs
    ensures forall p | p in pairs :: p.0 in m
  {
    if pairs == [] then map[]
    else
      var last := pairs[|pairs| - 1];
      MapOf(pairs[..|pairs| - 1])[last.0 := last.1]
  }

  lemma MapOfSnoc<K, V>(pairs: seq<(K, V)>, k: K, v: V)
    ensures MapOf(pairs + [(k, v)]) == MapOf(pairs)[k := v]
  {
    assert (pairs + [(k, v)])[..|pairs|] == pairs;
  }

  /** Of several pairs with one key the last one counts. */
  lemma {:induction false} MapOfLast<K(!new), V(!new)>(pairs: seq<(K, V)>, i: nat)
    requires i < |pairs| && forall j | i < j < |pairs| :: pairs[j].0 != pairs[i].0
    ensures pairs[i].0 in MapOf(pairs) && MapOf(pairs)[pairs[i].0] == pairs[i].1
    decreases |pairs|
  {
    var n := |pairs| - 1;
    assert pairs == pairs[..n] + [pairs[n]] && (pairs[n].0, pairs[n].1) == pairs[n];
    MapOfSnoc(pairs[..n], pairs[n].0, pairs[n].1);
    if i < n {
      MapOfLast(pairs[..n], i);
    }
  }

  lemma SetOfListing<T(!new)>(xs: seq<T>, s: set<T>)
    requires ListsSet(xs, s)
    ensures SetOf(xs) == s
    ensures |xs| == |s|
  {
    DistinctSize(xs);
  }

  lemma {:induction false} DistinctSize<T(!new)>(xs: seq<T>)
    requires Distinct(xs)
    ensures |SetOf(xs)| == |xs|
  {
    if xs != [] {
      var n := |xs| - 1;
      DistinctSize(xs[..n]);
      assert SetOf(xs) == SetOf(xs[..n]) + {xs[n]};
      assert xs[n] !in SetOf(xs[..n]);
    }
  }

  /** Rebuilding a map from any listing of it gives the map back, of the listing's size. */
  lemma MapOfListing<K(!new), V(!new)>(pairs: seq<(K, V)>, m: map<K, V>)
    requires ListsMap(pairs, m)
    ensures MapOf(pairs) == m
    ensures |pairs| == |m|
  {
    assert MapOf(pairs).Keys == m.Keys by {
      forall k | k in m ensures k in MapOf(pairs) {
        assert (k, m[k]) in pairs;
      }
    }
    DistinctKeysSize(pairs);
    assert |m| == |m.Keys|;
  }

  lemma {:induction false} DistinctKeysSize<K(!new), V(!new)>(pairs: seq<(K, V)>)
    requires DistinctKeys(pairs)
    ensures |MapOf(pairs).Keys| == |pairs|
  {
    if pairs != [] {
      var n := |pairs| - 1;
      DistinctKeysSize(pairs[..n]);
      assert MapOf(pairs).Keys == MapOf(pairs[..n]).Keys + {pairs[n].0};
      assert forall p | p in pairs[..n] :: p.0 != pairs[n].0;
    }
  }
}
