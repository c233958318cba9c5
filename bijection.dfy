/**
 Facts about the pair of maps a bi-directional map keeps: the forward map
 from keys to values and the reverse map from values to keys. The
 consistency the container is meant to keep is that the two maps are
 mutual inverses; the lemmas here say which updates preserve it.
 */
module Bijection {

  datatype Option<+T> = None | Some(value: T)

  /** Go's "comma ok" map lookup: the value and whether the key was present. */
  function Lookup<X, Y>(m: map<X, Y>, x: X): (r: Option<Y>)
    ensures r.Some? <==> x in m
    ensures r.Some? ==> m[x] == r.value
  {
    if x in m then Some(m[x]) else None
  }

  /** Every forward entry is mirrored in the reverse map and vice versa. */
  ghost predicate MutualInverse<K, V>(keyMap: map<K, V>, valueMap: map<V, K>)
  {
    && (forall k :: k in keyMap ==> keyMap[k] in valueMap && valueMap[keyMap[k]] == k)
    && (forall v :: v in valueMap ==> valueMap[v] in keyMap && keyMap[valueMap[v]] == v)
  }

  /** No two keys share a value. */
  ghost predicate Injective<K, V>(m: map<K, V>)
  {
    forall k, k' :: k in m && k' in m && k != k' ==> m[k] != m[k']
  }

  /**
   Binding `k` to `v` agrees with the pairs already stored: `k` is bound to
   nothing or to `v`, and `v` is bound to nothing or to `k`.
   */
  ghost predicate Compatible<K, V>(keyMap: map<K, V>, valueMap: map<V, K>, k: K, v: V)
  {
    && (k in keyMap ==> keyMap[k] == v)
    && (v in valueMap ==> valueMap[v] == k)
  }

  /**
   What an inverse copy's forward map may be: it is defined exactly on the
   values of `keyMap`, and sends each of them to some key bound to it. When
   several keys share a value, which one wins depends on iteration order.
   */
  ghost predicate InverseKeyMap<K, V>(inv: map<V, K>, keyMap: map<K, V>)
  {
    && inv.Keys == keyMap.Values
    && (forall v :: v in inv ==> inv[v] in keyMap && keyMap[inv[v]] == v)
  }

  /** Under the invariant the forward map is injective: values are unique. */
  lemma MutualInverseInjective<K, V>(keyMap: map<K, V>, valueMap: map<V, K>)
    requires MutualInverse(keyMap, valueMap)
    ensures Injective(keyMap) && Injective(valueMap)
  {
  }

  /**
   Putting a pair keeps the invariant exactly when the pair is compatible
   with what is stored: both ends fresh, or the pair already present.
   Rebinding a key leaves its old value pointing back at it; moving a value
   to a new key leaves the old key pointing at it.
   */
  lemma PutPreservesIff<K, V>(keyMap: map<K, V>, valueMap: map<V, K>, k: K, v: V)
    requires MutualInverse(keyMap, valueMap)
    ensures MutualInverse(keyMap[k := v], valueMap[v := k]) <==> Compatible(keyMap, valueMap, k, v)
  {
    var km, vm := keyMap[k := v], valueMap[v := k];
    if k in keyMap && keyMap[k] != v {
      var old_v := keyMap[k];
      assert old_v in vm && vm[old_v] == k && km[k] != old_v;
    } else if v in valueMap && valueMap[v] != k {
      var old_k := valueMap[v];
      assert old_k in km && km[old_k] == v && vm[v] != old_k;
    }
  }

  /** The fresh case on its own: neither end is bound yet. */
  lemma PutFreshPreserves<K, V>(keyMap: map<K, V>, valueMap: map<V, K>, k: K, v: V)
    requires MutualInverse(keyMap, valueMap)
    requires k !in keyMap && v !in valueMap
    ensures MutualInverse(keyMap[k := v], valueMap[v := k])
    ensures |keyMap[k := v]| == |keyMap| + 1
  {
  }

  /** Rebinding a stored key to a different value breaks the invariant. */
  lemma PutRebindKeyBreaks<K, V>(keyMap: map<K, V>, valueMap: map<V, K>, k: K, v: V)
    requires MutualInverse(keyMap, valueMap)
    requires k in keyMap && keyMap[k] != v
    ensures !MutualInverse(keyMap[k := v], valueMap[v := k])
    ensures keyMap[k] in valueMap[v := k] && valueMap[v := k][keyMap[k]] == k
  {
  }

  /** Binding a stored value to a different key breaks the invariant. */
  lemma PutStealValueBreaks<K, V>(keyMap: map<K, V>, valueMap: map<V, K>, k: K, v: V)
    requires MutualInverse(keyMap, valueMap)
    requires v in valueMap && valueMap[v] != k
    ensures !MutualInverse(keyMap[k := v], valueMap[v := k])
    ensures valueMap[v] in keyMap[k := v] && keyMap[k := v][valueMap[v]] == v
  {
  }

  /** Deleting a stored pair from both maps keeps the invariant and drops the size by one. */
  lemma RemovePairPreserves<K, V>(keyMap: map<K, V>, valueMap: map<V, K>, k: K)
    requires MutualInverse(keyMap, valueMap)
    requires k in keyMap
    ensures MutualInverse(keyMap - {k}, valueMap - {keyMap[k]})
    ensures |keyMap - {k}| == |keyMap| - 1
    ensures |valueMap - {keyMap[k]}| == |valueMap| - 1
  {
  }

  /** Mutually inverse maps have as many keys as values. */
  lemma {:induction false} MutualInverseSizes<K, V>(keyMap: map<K, V>, valueMap: map<V, K>)
    requires MutualInverse(keyMap, valueMap)
    ensures |keyMap| == |valueMap|
    decreases |keyMap|
  {
    if keyMap == map[] {
      assert valueMap.Keys == {};
    } else {
      var k :| k in keyMap;
      RemovePairPreserves(keyMap, valueMap, k);
      MutualInverseSizes(keyMap - {k}, valueMap - {keyMap[k]});
    }
  }

  /** An inverse copy of a map whose values are unique sends every value back to its key. */
  lemma InverseOfInjective<K, V>(inv: map<V, K>, keyMap: map<K, V>)
    requires Injective(keyMap)
    requires InverseKeyMap(inv, keyMap)
    ensures forall k :: k in keyMap ==> keyMap[k] in inv && inv[keyMap[k]] == k
  {
  }

  /**
   When the two maps are mutual inverses, an inverse copy's forward map is
   exactly the reverse map, and the swapped pair is again mutually inverse.
   */
  lemma InverseOfMutual<K, V>(inv: map<V, K>, keyMap: map<K, V>, valueMap: map<V, K>)
    requires MutualInverse(keyMap, valueMap)
    requires InverseKeyMap(inv, keyMap)
    ensures inv == valueMap
    ensures MutualInverse(inv, keyMap)
  {
  }

  /**
   Inverting twice gives back the forward map: the inverse of the inverse
   of a map with unique values is that map.
   */
  lemma InverseTwice<K, V>(inv: map<V, K>, back: map<K, V>, keyMap: map<K, V>)
    requires Injective(keyMap)
    requires InverseKeyMap(inv, keyMap)
    requires InverseKeyMap(back, inv)
    ensures back == keyMap
  {
    InverseOfInjective(inv, keyMap);
    assert back.Keys == keyMap.Keys by {
      forall k | k in keyMap ensures k in inv.Values {
        assert inv[keyMap[k]] == k;
      }
    }
  }
}
