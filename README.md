# BiMap — a verified model of a Go bi-directional map

The Go package `bimap` provides `BiMap[K, V]`, a bi-directional map in the
style of Guava's: a struct holding a forward map `keyMap` (K→V) and a reverse
map `valueMap` (V→K). `Put` writes both directions, lookups work either way,
removal by key or by value deletes a pair only when both directions are
present, and `Inverse` builds a fresh map with the directions swapped. The
type's doc comment says that keys AND values are unique.

This project models that struct in Dafny:

- `bijection.dfy`, module `Bijection`: pure facts about a pair of maps. It
  defines the invariant `MutualInverse` (every forward entry is mirrored
  backwards and vice versa), `Compatible` (a pair that can be put without
  breaking it), and `InverseKeyMap` (what the forward map of an inverse copy
  may be). Its lemmas say exactly when a put keeps the invariant, that removal
  keeps it, that mutually inverse maps have equal sizes, and how inversion
  behaves.
- `bimap.dfy`, module `BiMaps`: the class `BiMap<K, V>` with the two map
  fields. `Put`, `RemoveKey` and `RemoveValue` update them in place and state
  the whole new state. `Inverse` fills a fresh object in a loop over the keys
  in an unspecified order, as Go's `range` does. Three client methods replay
  the package's test and two further scenarios.

`Put` is modelled as written: it does not evict a stale entry. Rebinding a key
leaves the old value's reverse entry pointing at the key. Moving a value to a
new key leaves the old key's forward entry in place. The invariant is
therefore proved for `Put` only when the pair is compatible with the stored
pairs, and `PutRebindKeyBreaks` and `PutStealValueBreaks` show that it fails
otherwise. After `Put(k, v1); Put(k, v2)`, `GetKey(v1)` still returns `k`;
`OverwriteScenario` proves it.

## Model

| member | source | states |
|---|---|---|
| BiMaps.BiMap.constructor | bimap/biMap.go:12-15 | a new bi-map has both maps empty, size 0 and satisfies the invariant |
| BiMaps.BiMap.Size | bimap/biMap.go:18-20 | under the invariant the size (number of keys) equals the number of values as well |
| BiMaps.BiMap.Put | bimap/biMap.go:23-27 | both directions are written and the receiver is returned; afterwards the key gives the value and the value gives the key; size grows by one exactly when the key was new; from a bijective state the result is bijective iff the pair was compatible |
| BiMaps.BiMap.GetValue | bimap/biMap.go:30-33 | reports found exactly when the key is present, and then the value stored for it |
| BiMaps.BiMap.ContainsKey | bimap/biMap.go:36-39 | holds exactly when GetValue reports found |
| BiMaps.BiMap.ContainsValue | bimap/biMap.go:42-45 | holds exactly when GetKey reports found |
| BiMaps.BiMap.GetKey | bimap/biMap.go:48-51 | reports found exactly when the value is present, and then the key stored for it |
| BiMaps.BiMap.RemoveKey | bimap/biMap.go:54-61 | a no-op unless the key and its value's reverse entry are both present; otherwise exactly those two entries go and the size drops by one; the invariant is kept and the key is then absent |
| BiMaps.BiMap.RemoveValue | bimap/biMap.go:64-71 | symmetric to RemoveKey: a no-op unless the value and its key are both present; otherwise exactly that pair goes and the size drops by one; the invariant is kept |
| BiMaps.BiMap.Inverse | bimap/biMap.go:74-81 | returns a fresh bi-map whose reverse map is this forward map and whose forward map sends each value to a key bound to it; for a bijective map it is exactly the swapped pair and bijective again; the receiver is not modified |
| BiMaps.LookupsAgree | bimap/biMap.go:5-9 | under the invariant GetValue(k) finds v iff GetKey(v) finds k |
| BiMaps.BasicsScenario | bimap/biMap_test.go:10-47 | the package test's sequence (two puts, lookups, remove by key, remove by value) sees sizes 0, 1, 2, 1, 0 and the four lookups after the first put: the stored key and value are found both ways, a key and a value never put are absent |
| BiMaps.OverwriteScenario | bimap/biMap.go:23-27 | after rebinding a key the size is 1 and the new value is found, while the old value still leads back to the key |
| BiMaps.InverseScenario | bimap/biMap.go:74-81 | the inverse of two distinct pairs answers the swapped lookups, double inversion restores the forward map, and removing from the inverse leaves the original's size at 2 |
| Bijection.Lookup | bimap/biMap.go:31-32 | Go's comma-ok lookup: found exactly when the key is present, with the stored value |
| Bijection.MutualInverseInjective | bimap/biMap.go:5 | under the invariant both keys and values are unique |
| Bijection.PutPreservesIff | bimap/biMap.go:23-27 | a put keeps the invariant if and only if the pair is compatible: both ends absent, or already paired with each other |
| Bijection.PutFreshPreserves | bimap/biMap.go:23-27 | putting a pair whose key and value are both absent keeps the invariant and adds exactly one key |
| Bijection.PutRebindKeyBreaks | bimap/biMap.go:24-25 | rebinding a present key to another value breaks the invariant: the old value still maps back to the key |
| Bijection.PutStealValueBreaks | bimap/biMap.go:24-25 | binding a present value to another key breaks the invariant: the old key still maps to the value |
| Bijection.RemovePairPreserves | bimap/biMap.go:54-71 | deleting a stored pair from both maps keeps the invariant and drops each map's size by one |
| Bijection.MutualInverseSizes | bimap/biMap.go:5-9 | mutually inverse maps have as many keys as values |
| Bijection.InverseOfInjective | bimap/biMap.go:74-81 | when values are unique, the inverse copy sends every value back to its own key |
| Bijection.InverseOfMutual | bimap/biMap.go:74-81 | for a bijective pair, the inverse copy's forward map is the reverse map and the swapped pair is bijective |
| Bijection.InverseTwice | bimap/biMap.go:74-81 | inverting twice gives back the forward map of a map with unique values |

## Left out

- BiMaps.BiMap.GetValue: Go returns the zero value of V with `false` on a miss; the model returns `None`, and GetKey likewise. Dafny has no generic zero value.
- Go's `comparable` constraint is modelled as the `(==)` type characteristic, and the `*BiMap` pointer as a class reference. The iteration order of `range` in `Inverse` is an unspecified choice, so where keys share a value only a set of possible results is specified.
- The `fmt.Printf` / `fmt.Println` output of the package test is I/O and is not modelled. Its `assert.Equal` checks are what `BasicsScenario` proves.
- Concurrency: Go maps are not safe for concurrent use and the struct adds no locking. The model is sequential.
- Scope: only the unordered `BiMap` of `bimap/biMap.go` is modelled.
- Maps are assumed to come from `NewBiMap`: a zero-value `BiMap` declared directly has nil maps, and its `Put` panics on assignment to a nil map; that panic is not modelled, since the class can only be built by its constructor.
- Key and value equality is assumed reflexive and total, as `(==)` is: a floating-point NaN key, which never equals itself and so adds a new entry on every `Put` that `GetValue` never finds, and an interface-typed key whose dynamic type is not comparable, which panics, are not modelled.
