/**
 JavaScript's `Map` and string-keyed object: entries in insertion order, one per key.
 Writing an existing key keeps its place; a new key goes last.
 */
module OrderedMap {
  import opened Wrappers

  type Entries<K, V> = seq<(K, V)>

  function Set<K(==), V>(m: Entries<K, V>, k: K, v: V): Entries<K, V> {
    if m == [] then [(k, v)]
    else if m[0].0 == k then [(k, v)] + m[1..]
    else [m[0]] + Set(m[1..], k, v)
  }

  function Get<K(==), V>(m: Entries<K, V>, k: K): Option<V> {
    if m == [] then None
    else if m[0].0 == k then Some(m[0].1)
    else Get(m[1..], k)
  }

  predicate Has<K(==), V>(m: Entries<K, V>, k: K) {
    Get(m, k).Some?
  }

  ghost predicate DistinctKeys<K, V>(m: Entries<K, V>) {
    forall i, j :: 0 <= i < j < |m| ==> m[i].0 != m[j].0
  }

  lemma {:induction false} GetAfterSet<K, V>(m: Entries<K, V>, k: K, v: V, other: K)
    ensures Get(Set(m, k, v), other) == if other == k then Some(v) else Get(m, other)
  {
    if m != [] && m[0].0 != k {
      GetAfterSet(m[1..], k, v, other);
    }
  }

  /** The place written: the key's own if it has one, else a new last one. */
  lemma SetAt<K, V>(m: Entries<K, V>, k: K, v: V)
    requires DistinctKeys(m)
    ensures DistinctKeys(Set(m, k, v))
    ensures !Has(m, k) ==> Set(m, k, v) == m + [(k, v)] && forall i :: 0 <= i < |m| ==> m[i].0 != k
    ensures Has(m, k) ==> exists i :: 0 <= i < |m| && m[i].0 == k && Set(m, k, v) == m[i := (k, v)]
  {
    if Has(m, k) {
      var i := SetInPlace(m, k, v);
    } else {
      SetAppends(m, k, v);
    }
  }

  lemma {:induction false} SetInPlace<K, V>(m: Entries<K, V>, k: K, v: V) returns (i: nat)
    requires Has(m, k)
    ensures i < |m| && m[i].0 == k && Set(m, k, v) == m[i := (k, v)]
  {
    if m[0].0 == k {
      i := 0;
    } else {
      i := SetInPlace(m[1..], k, v);
      i := i + 1;
      assert [m[0]] + m[1..][i - 1 := (k, v)] == m[i := (k, v)];
    }
  }

  lemma {:induction false} SetAppends<K, V>(m: Entries<K, V>, k: K, v: V)
    requires !Has(m, k)
    ensures Set(m, k, v) == m + [(k, v)] && forall i :: 0 <= i < |m| ==> m[i].0 != k
  {
    if m != [] {
      SetAppends(m[1..], k, v);
      assert [m[0]] + (m[1..] + [(k, v)]) == m + [(k, v)];
      assert forall i :: 1 <= i < |m| ==> m[i] == m[1..][i - 1];
    }
  }

  /** Every entry is what its key reads. */
  lemma {:induction false} GetAt<K, V>(m: Entries<K, V>, i: nat)
    requires DistinctKeys(m) && i < |m|
    ensures Get(m, m[i].0) == Some(m[i].1)
  {
    if i > 0 {
      assert m[0].0 != m[i].0;
      GetAt(m[1..], i - 1);
    }
  }

  /** What a key reads is an entry. */
  lemma {:induction false} GetFinds<K, V>(m: Entries<K, V>, k: K) returns (i: nat)
    requires Has(m, k)
    ensures i < |m| && m[i] == (k, Get(m, k).value)
  {
    if m[0].0 == k {
      i := 0;
    } else {
      i := GetFinds(m[1..], k);
      i := i + 1;
    }
  }
}
