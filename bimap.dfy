/**
 The bi-directional map: a forward map from keys to values and a reverse
 map from values to keys, updated in place. Keys and values are meant to be
 unique, which is the invariant `Bijective`; `Put` does not evict stale
 entries, so it keeps that invariant only for compatible pairs.
 */
module BiMaps {
  import opened Bijection

  class BiMap<K(==), V(==)> {
    var keyMap: map<K, V>
    var valueMap: map<V, K>

    /** The two maps are mutual inverses: keys and values are both unique. */
    ghost predicate Bijective()
      reads this
    {
      MutualInverse(keyMap, valueMap)
    }

    /** A new, empty bi-map. */
    constructor ()
      ensures keyMap == map[] && valueMap == map[]
      ensures Size() == 0 && Bijective()
    {
      keyMap := map[];
      valueMap := map[];
    }

    /** The number of keys; under the invariant also the number of values. */
    function Size(): (n: nat)
      reads this
      ensures Bijective() ==> n == |valueMap|
    {
      assert Bijective() ==> |keyMap| == |valueMap| by {
        if Bijective() {
          MutualInverseSizes(keyMap, valueMap);
        }
      }
      |keyMap|
    }

    /** Writes both directions; returns the receiver for chaining. */
    method Put(key: K, value: V) returns (self: BiMap<K, V>)
      modifies this
      ensures self == this
      ensures keyMap == old(keyMap)[key := value]
      ensures valueMap == old(valueMap)[value := key]
      ensures GetValue(key) == Some(value) && GetKey(value) == Some(key)
      ensures Size() == if key in old(keyMap) then old(Size()) else old(Size()) + 1
      ensures old(Bijective()) ==> (Bijective() <==> Compatible(old(keyMap), old(valueMap), key, value))
    {
      if Bijective() {
        PutPreservesIff(keyMap, valueMap, key, value);
      }
      keyMap := keyMap[key := value];
      valueMap := valueMap[value := key];
      self := this;
    }

    /** The value bound to `key`, if any. */
    function GetValue(key: K): (r: Option<V>)
      reads this
      ensures r.Some? <==> key in keyMap
      ensures r.Some? ==> (key, r.value) in keyMap.Items
    {
      Lookup(keyMap, key)
    }

    function ContainsKey(key: K): (b: bool)
      reads this
      ensures b <==> GetValue(key).Some?
    {
      key in keyMap
    }

    function ContainsValue(value: V): (b: bool)
      reads this
      ensures b <==> GetKey(value).Some?
    {
      value in valueMap
    }

    /** The key bound to `value`, if any. */
    function GetKey(value: V): (r: Option<K>)
      reads this
      ensures r.Some? <==> value in valueMap
      ensures r.Some? ==> (value, r.value) in valueMap.Items
    {
      Lookup(valueMap, value)
    }

    /**
     Deletes the pair of `key` when the key is present and its value has a
     reverse entry; otherwise does nothing.
     */
    method RemoveKey(key: K)
      modifies this
      ensures if key in old(keyMap) && old(keyMap)[key] in old(valueMap)
        then keyMap == old(keyMap) - {key} && valueMap == old(valueMap) - {old(keyMap)[key]}
        else keyMap == old(keyMap) && valueMap == old(valueMap)
      ensures Size() == if key in old(keyMap) && old(keyMap)[key] in old(valueMap)
        then old(Size()) - 1 else old(Size())
      ensures old(Bijective()) ==> Bijective() && !ContainsKey(key)
    {
      if key in keyMap {
        var val := keyMap[key];
        if val in valueMap {
          assert (keyMap - {key}).Keys == keyMap.Keys - {key};
          if Bijective() {
            RemovePairPreserves(keyMap, valueMap, key);
          }
          keyMap := keyMap - {key};
          valueMap := valueMap - {val};
        }
      }
    }

    /**
     Deletes the pair of `val` when the value is present and its key has a
     forward entry; otherwise does nothing.
     */
    method RemoveValue(val: V)
      modifies this
      ensures if val in old(valueMap) && old(valueMap)[val] in old(keyMap)
        then keyMap == old(keyMap) - {old(valueMap)[val]} && valueMap == old(valueMap) - {val}
        else keyMap == old(keyMap) && valueMap == old(valueMap)
      ensures Size() == if val in old(valueMap) && old(valueMap)[val] in old(keyMap)
        then old(Size()) - 1 else old(Size())
      ensures old(Bijective()) ==> Bijective() && !ContainsValue(val)
    {
      if val in valueMap {
        var key := valueMap[val];
        if key in keyMap {
          assert (keyMap - {key}).Keys == keyMap.Keys - {key};
          if Bijective() {
            RemovePairPreserves(keyMap, valueMap, key);
          }
          keyMap := keyMap - {key};
          valueMap := valueMap - {val};
        }
      }
    }

    /**
     A fresh bi-map with the directions swapped, filled by visiting the keys
     in an unspecified order. Its reverse map is this forward map; its
     forward map sends each value to some key bound to it, and is exactly
     this reverse map when this bi-map is bijective.
     */
    method Inverse() returns (ret: BiMap<V, K>)
      ensures fresh(ret)
      ensures ret.valueMap == keyMap
      ensures InverseKeyMap(ret.keyMap, keyMap)
      ensures Bijective() ==> ret.keyMap == valueMap && ret.Bijective()
    {
      ret := new BiMap<V, K>();
      var todo := keyMap.Keys;
      while todo != {}
        invariant todo <= keyMap.Keys
        invariant ret.valueMap == map k | k in keyMap && k !in todo :: keyMap[k]
        invariant ret.keyMap.Keys == set k | k in keyMap && k !in todo :: keyMap[k]
        invariant forall v :: v in ret.keyMap ==>
          ret.keyMap[v] in keyMap && ret.keyMap[v] !in todo && keyMap[ret.keyMap[v]] == v
        decreases todo
      {
        var key :| key in todo;
        var val := keyMap[key];
        ret.keyMap := ret.keyMap[val := key];
        ret.valueMap := ret.valueMap[key := val];
        todo := todo - {key};
      }
      assert ret.keyMap.Keys == keyMap.Values;
      if Bijective() {
        InverseOfMutual(ret.keyMap, keyMap, valueMap);
      }
    }
  }

  /** Under the invariant, the two lookups are inverse to each other. */
  lemma LookupsAgree<K, V>(b: BiMap<K, V>, key: K, value: V)
    requires b.Bijective()
    ensures b.GetValue(key) == Some(value) <==> b.GetKey(value) == Some(key)
  {
  }

  /**
   The basic scenario of the package's test: two pairs with distinct keys
   and distinct values are put, then removed, one by key and one by value.
   Returns the sizes observed after each step, and the four lookups made
   after the first put: the stored key and value are found both ways, a key
   and a value never put are absent.
   */
  method BasicsScenario<K(==), V(==)>(k1: K, v1: V, k2: K, v2: V, v3: V)
    returns (sizes: seq<nat>, gotValue: Option<V>, gotKey: Option<K>, noValue: Option<V>, noKey: Option<K>)
    requires k1 != k2 && v1 != v2 && v3 != v1
    ensures sizes == [0, 1, 2, 1, 0]
    ensures gotValue == Some(v1) && gotKey == Some(k1)
    ensures noValue == None && noKey == None
  {
    var b := new BiMap<K, V>();
    var s0 := b.Size();
    var _ := b.Put(k1, v1);
    var s1 := b.Size();
    gotValue := b.GetValue(k1);
    gotKey := b.GetKey(v1);
    noValue := b.GetValue(k2);
    noKey := b.GetKey(v3);
    var _ := b.Put(k2, v2);
    var s2 := b.Size();
    assert s2 == 2;
    b.RemoveKey(k1);
    var s3 := b.Size();
    assert s3 == 1 && b.valueMap == map[v2 := k2];
    b.RemoveValue(v2);
    sizes := [s0, s1, s2, s3, b.Size()];
  }

  /**
   Rebinding a key: the size stays 1 and the key now gives the new value,
   but the old value still leads back to the key, because `Put` does not
   evict the stale reverse entry.
   */
  method OverwriteScenario<K(==), V(==)>(key: K, v1: V, v2: V) returns (size: nat, got: Option<V>, stale: Option<K>)
    requires v1 != v2
    ensures size == 1 && got == Some(v2) && stale == Some(key)
  {
    var b := new BiMap<K, V>();
    var _ := b.Put(key, v1);
    var _ := b.Put(key, v2);
    size := b.Size();
    got := b.GetValue(key);
    stale := b.GetKey(v1);
  }

  /**
   The inverse of a two-pair map answers the swapped lookups, inverting it
   again restores the original forward map, and removing from the inverse
   leaves the original untouched.
   */
  method InverseScenario<K(==), V(==)>(k1: K, v1: V, k2: K, v2: V) returns (a: Option<K>, b: Option<K>, back: map<K, V>, size: nat)
    requires k1 != k2 && v1 != v2
    ensures a == Some(k1) && b == Some(k2)
    ensures back == map[k1 := v1, k2 := v2]
    ensures size == 2
  {
    var m := new BiMap<K, V>();
    var _ := m.Put(k1, v1);
    var _ := m.Put(k2, v2);
    var inv := m.Inverse();
    a := inv.GetValue(v1);
    b := inv.GetValue(v2);
    var inv2 := inv.Inverse();
    back := inv2.keyMap;
    inv.RemoveKey(v1);
    size := m.Size();
  }
}
