# MyTreeMap in Dafny

A model of `MyTreeMap`, an ordered key-value map backed by an unbalanced
binary search tree. The map keeps a root link and an entry counter. It
supports:

- lookup (`findNode`, `containsKey`, `get`);
- insertion (`put`, `putHelper`, `putAll`), which overwrites the value of an
  existing key in place or hangs a new leaf at the end of the comparison path;
- key enumeration in ascending order (`keySet`, `addKeys`);
- de-duplicated value enumeration with an explicit stack (`values`,
  `containsValue`);
- counter bookkeeping (`size`, `isEmpty`, `clear`) and `height`.

The tree is an immutable datatype `Tree<V> = Empty | Node(left, key, value, right)`
with integer keys (any totally ordered, non-null key type). The map object is
`TreeMap(root, size)`. Every contract is stated against an abstract view:

- `Content`, the `map<int, V>` the tree represents;
- `Keys`, the set of stored keys;
- `InOrder`, the sorted key sequence;
- `ValueSet`, the set of stored values.

The invariant `Valid` says the tree obeys the search-tree ordering and the
counter equals the node count.

Modules, one per concern of the source class:

| file | module | models |
|---|---|---|
| outcomes.dfy | `Outcomes` | null references (`Option`), exceptions (`Result`, `Fault`) |
| tree.dfy | `Trees` | `Node`, `isLeaf`, `heightHelper`, the views and the ordering invariant |
| search.dfy | `Search` | `findNode` |
| insert.dfy | `Insert` | the two branches of `putHelper` |
| traversal.dfy | `Traversal` | `addKeys`, `values`, `containsValue` |
| treemap.dfy | `TreeMap` | the object: `clear`, `containsKey`, `get`, `put`, `putAll`, `keySet`, `size`, `isEmpty`, `height`, and a sequence of concrete scenarios |

A null key is `None` at the `TreeMap` boundary. `containsKey`, `get` and `put`
answer `Failure(NullKey)` for it, where the source throws
`NullPointerException`. `putAll` returns a pair instead: the map reached by
the entries before the null key, together with `Some(NullKey)`.

Two operations dereference a null root on an empty map: the search (`findNode`)
and the key walk (`addKeys`). Each is modelled twice. One version is as written
(`Failure(NullDereference)`). The other is corrected: an empty map has no keys,
and searching it finds nothing. The map operations use the corrected version.
See "## Findings".

## Model

| member | source | states |
|---|---|---|
| `Search.Find` | javacs-lab09/src/com/flatironschool/javacs/MyTreeMap.java:91-103 | The node the comparison-guided search reaches holds the target key. Its subtree is part of the searched tree, so a found key is a stored key on any tree, ordered or not. |
| `Search.FindNode` | javacs-lab09/src/com/flatironschool/javacs/MyTreeMap.java:81-104 | The loop as written behaves as follows. A null target throws `NullKey`. A null root throws `NullDereference`. Otherwise the loop ends with exactly the node the recursive search finds, or with null. When the third guard (right or left link null) is reached it always holds, so the loop never spins. |
| `Search.FindCorrect` | javacs-lab09/src/com/flatironschool/javacs/MyTreeMap.java:81-104 | On a search tree the search succeeds if and only if the key is stored. The node it returns carries that key's value in the abstract map. |
| `Insert.SetValue` | javacs-lab09/src/com/flatironschool/javacs/MyTreeMap.java:191-198 | After the overwrite, the shape, keys, node count and height are the same, and the search reaches the same node, now holding the new value. |
| `Insert.SetValueRoundTrip` | javacs-lab09/src/com/flatironschool/javacs/MyTreeMap.java:191-198 | On any tree, writing the old value back after an overwrite restores the original tree exactly, so the overwrite changes the found node's value and nothing else. |
| `Insert.SetValueUpdatesContent` | javacs-lab09/src/com/flatironschool/javacs/MyTreeMap.java:191-198 | On a search tree the overwrite keeps the ordering invariant and turns the abstract map into `old[k := v]`. |
| `Insert.AttachLeaf` | javacs-lab09/src/com/flatironschool/javacs/MyTreeMap.java:200-217 | Descending to the first null link adds exactly one key and one node. The search for the key then reaches a new leaf `(k, v)`. Detaching that leaf gives back the original tree, so no other node moves. The height grows by at most one. |
| `Insert.AttachLeafUpdatesContent` | javacs-lab09/src/com/flatironschool/javacs/MyTreeMap.java:200-217 | On a search tree that lacks the key, attaching the new leaf keeps the ordering invariant and makes the abstract map `old[k := v]`. |
| `Traversal.AddKeys` | javacs-lab09/src/com/flatironschool/javacs/MyTreeMap.java:160-176 | The four-way split only appends: the collected keys stay a prefix. The result holds exactly the earlier keys and the subtree's keys. The insertion-ordered set never holds a key twice. |
| `Traversal.AddKeysIsInOrder` | javacs-lab09/src/com/flatironschool/javacs/MyTreeMap.java:160-176 | On a search tree the four-way split gives the same sequence as the standard left-key-right traversal. |
| `Traversal.InOrderKeys` | javacs-lab09/src/com/flatironschool/javacs/MyTreeMap.java:150-176 | The in-order walk lists exactly the stored keys. |
| `Traversal.InOrderAscending` | javacs-lab09/src/com/flatironschool/javacs/MyTreeMap.java:150-176 | On a search tree the in-order walk is strictly ascending. |
| `Traversal.Values` | javacs-lab09/src/com/flatironschool/javacs/MyTreeMap.java:240-253 | The explicit-stack walk collects exactly the set of stored values, skipping null entries. An empty tree yields the empty set. |
| `Traversal.ContainsValue` | javacs-lab09/src/com/flatironschool/javacs/MyTreeMap.java:120-129 | The scan over `values()` answers true if and only if the target is a stored value. |
| `Trees.ValueSetIsRange` | javacs-lab09/src/com/flatironschool/javacs/MyTreeMap.java:240-253 | On a search tree the stored values are exactly the values of the abstract map's keys. |
| `Trees.HeightBounds` | javacs-lab09/src/com/flatironschool/javacs/MyTreeMap.java:324-331 | The height is 0 exactly for the null tree. It is at most the node count, and a tree of height h has fewer than 2^h nodes. |
| `TreeMap.New` | javacs-lab09/src/com/flatironschool/javacs/MyTreeMap.java:23-24 | A new map satisfies the invariant, represents the empty map and counts 0. |
| `TreeMap.Clear` | javacs-lab09/src/com/flatironschool/javacs/MyTreeMap.java:65-69 | After `clear` the map cannot be told apart from a new one: it is valid, empty and counts 0. |
| `TreeMap.ContainsKey` | javacs-lab09/src/com/flatironschool/javacs/MyTreeMap.java:71-74 | A null key fails with `NullKey`, and only a null key fails. Otherwise the answer is whether the search finds a node. |
| `TreeMap.Get` | javacs-lab09/src/com/flatironschool/javacs/MyTreeMap.java:136-143 | A null key fails with `NullKey`, and only a null key fails. Otherwise `get` answers a value exactly when `containsKey` answers true. |
| `TreeMap.LookupCorrect` | javacs-lab09/src/com/flatironschool/javacs/MyTreeMap.java:136-143 | On a valid map, `get` answers the abstract map's value, or null for an absent key. `containsKey` answers key membership. |
| `TreeMap.Put` | javacs-lab09/src/com/flatironschool/javacs/MyTreeMap.java:178-189 | A null key fails with `NullKey`, and only a null key fails. Otherwise, on any tree, the search then finds the new value. Null is answered exactly when the key was not found before. The counter grows by one exactly then. |
| `TreeMap.PutCorrect` | javacs-lab09/src/com/flatironschool/javacs/MyTreeMap.java:178-221 | On a valid map, `put` keeps the invariant. The abstract map becomes `old[k := v]` and the answer is the key's previous value or null. The counter grows only for a new key. An existing key keeps the tree's shape. A new key is a leaf whose removal restores the old tree. |
| `TreeMap.GetAfterPut` | javacs-lab09/src/com/flatironschool/javacs/MyTreeMap.java:178-221 | After `put(k, v)`, `get(k)` answers `v`. Every other key answers what it answered before. |
| `TreeMap.PutExistingKey` | javacs-lab09/src/com/flatironschool/javacs/MyTreeMap.java:191-198 | Re-putting a stored key answers its previous value and leaves `size()` unchanged. |
| `TreeMap.PutAll` | javacs-lab09/src/com/flatironschool/javacs/MyTreeMap.java:223-228 | The call fails exactly when some entry has a null key, and the failure is `NullKey`. Otherwise the counter grows by at most the number of entries. |
| `TreeMap.PutAllStopsAtNull` | javacs-lab09/src/com/flatironschool/javacs/MyTreeMap.java:223-228 | When entry `i` is the first with a null key, the call returns the map the first `i` entries produce, together with `NullKey`: the entries before it stay applied. |
| `TreeMap.PutAllRefines` | javacs-lab09/src/com/flatironschool/javacs/MyTreeMap.java:223-228 | With non-null keys, `putAll` keeps the invariant and applies the map updates in entry order. |
| `TreeMap.PutAllFromNew` | javacs-lab09/src/com/flatironschool/javacs/MyTreeMap.java:223-228 | From a new map, `size()` equals the number of distinct keys put. Every key answers the value of its last put. |
| `TreeMap.SizeCountsKeys` | javacs-lab09/src/com/flatironschool/javacs/MyTreeMap.java:235-238 | On a valid map, `size()` is the number of distinct stored keys. `isEmpty()` holds exactly when no key is stored. |
| `TreeMap.KeySetSorted` | javacs-lab09/src/com/flatironschool/javacs/MyTreeMap.java:150-155 | On a valid map, `keySet()` is the in-order sequence. It is strictly ascending, lists every stored key and only those, and has `size()` elements. |
| `TreeMap.HeightBoundsMap` | javacs-lab09/src/com/flatironschool/javacs/MyTreeMap.java:320-331 | On a valid map, `height()` is 0 exactly when `size()` is 0. Otherwise it lies between log2(size + 1) and size. |
| `TreeMap.ValuesOf` | javacs-lab09/src/com/flatironschool/javacs/MyTreeMap.java:240-253 | An empty map yields no values. On a valid map, `values()` holds exactly the values some key maps to. |
| `TreeMap.ContainsValueOf` | javacs-lab09/src/com/flatironschool/javacs/MyTreeMap.java:120-129 | On a valid map, `containsValue(x)` holds exactly when some key maps to `x`. |
| `TreeMap.NineKeyBuild` | javacs-lab09/src/com/flatironschool/javacs/MyTreeMap.java:260-282 | Putting 8, 3, 10, 1, 6, 14, 4, 7, 13 in that order builds exactly the tree `main` assembles by hand, with counter 9. |
| `TreeMap.NineKeyShape` | javacs-lab09/src/com/flatironschool/javacs/MyTreeMap.java:260-282 | That map's `keySet()` is 1, 3, 4, 6, 7, 8, 10, 13, 14, and `size()` is 9. |
| `TreeMap.NineKeyHeight` | javacs-lab09/src/com/flatironschool/javacs/MyTreeMap.java:260-282 | That map's `height()` is 4. |
| `TreeMap.NineKeyPutFive` | javacs-lab09/src/com/flatironschool/javacs/MyTreeMap.java:284 | On that map, `put(5, 5)` answers null and hangs 5 as the right child of 4, with counter 10. |
| `TreeMap.TenKeyShape` | javacs-lab09/src/com/flatironschool/javacs/MyTreeMap.java:284 | Afterwards `keySet()` places 5 between 4 and 6, and `size()` is 10. |
| `TreeMap.RepeatedKeyScenario` | javacs-lab09/src/com/flatironschool/javacs/MyTreeMap.java:183-198 | `put(1, 1)` then `put(1, 2)` answer null and then 1. `get(1)` then answers 2, and the map still holds one entry. |
| `TreeMap.EmptyMapLookups` | javacs-lab09/src/com/flatironschool/javacs/MyTreeMap.java:92-93 | On a new map the corrected `get`, `containsKey` and `keySet` answer null, false and nothing. The as-written search and key walk fail with `NullDereference`. |

## Left out

- `remove` and `entrySet` (MyTreeMap.java:131-134, 230-233) only throw `UnsupportedOperationException`, so there is nothing to model.
- The private `equals(Object, Object)` helper (MyTreeMap.java:113-118) is never called.
- The testing hooks `makeNode` and `setTree` and the `main` demonstration (MyTreeMap.java:258-311) bypass the invariants. `main`'s hand-built tree is modelled only as `NineKeyTree`.
- The accessors `getKey` and `getValue` are plain field reads and appear as datatype fields.
- Null stored values are not modelled: `V` has no null. With one, `containsValue` (MyTreeMap.java:124) would throw `NullPointerException` from `value.equals(target)`. For the same reason `get` answers null only for an absent key.
- The counter is an unbounded integer. The source's 32-bit `int` would wrap after 2^31 - 1 new keys.
- Keys are `int`. The unchecked `Comparable` casts, and the ordering of an arbitrary key type, are replaced by integer comparison.
- `HashSet`, `LinkedHashSet` and `LinkedList` become Dafny `set` and `seq`. The collected keys are a `seq` that skips keys already present, and the stack is a `seq` with its top first.
- Nodes are immutable values, not heap objects. An in-place update of a node's value or link is modelled by rebuilding the path from the root, so node identity is not modelled.
- `putAll` takes a sequence of entries in the source map's iteration order. A foreign `java.util.Map` is not modelled.
- The source throws `NullPointerException` for a null key. The model calls this failure `NullKey`; it plays the role of an invalid-argument error.
- `TreeMap.SizeOf`, `TreeMap.IsEmpty`, `TreeMap.HeightOf`, `TreeMap.KeySet`, `TreeMap.PutHelper` (putHelper, MyTreeMap.java:191-221), `Trees.IsLeaf` (isLeaf, MyTreeMap.java:55-61) and `Trees.Height` (heightHelper, MyTreeMap.java:324-331) carry no contract of their own. Their properties are stated by `TreeMap.SizeCountsKeys`, `TreeMap.HeightBoundsMap`, `TreeMap.KeySetSorted`, `TreeMap.Put` with `TreeMap.PutCorrect`, `Traversal.AddKeys` and `Trees.HeightBounds`.

## Findings

| source | as written | input that shows it | evidently intended | confidence | as-written member | corrected member |
|---|---|---|---|---|---|---|
| javacs-lab09/src/com/flatironschool/javacs/MyTreeMap.java:92-93 | `findNode` reads `current.getKey()` with `current = root` and never checks for null, so `containsKey` and `get` throw on an empty map | `get(5)` on a new map | an empty map holds no key, so `get` answers null and `containsKey` answers false | high (not executed) | `Search.FindNodeAsWritten` (shown by `TreeMap.EmptyMapLookups`) | `Search.Find`, used by `TreeMap.Get` and `TreeMap.ContainsKey` (`TreeMap.LookupCorrect`, `TreeMap.EmptyMapLookups`) |
| javacs-lab09/src/com/flatironschool/javacs/MyTreeMap.java:153-161 | `keySet` calls `addKeys(set, root)`, and `addKeys` calls `current.isLeaf()` on a null root, so it throws on an empty map | `keySet()` on a new map | an empty map has an empty key set | high (not executed) | `TreeMap.KeySetAsWritten` (shown by `TreeMap.EmptyMapLookups`) | `TreeMap.KeySet` (`TreeMap.KeySetSorted`, `TreeMap.EmptyMapLookups`) |
