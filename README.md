# tinymap in Dafny

A verified model of the Rust crate `tinymap`.

The crate provides fixed-capacity ordered containers that keep their elements inline in an array:
- `ArrayMap` (src/array_map.rs) and `ArraySet` (src/array_set.rs) keep their elements in the first `len` slots of the array, in strictly ascending key order;
- `TinyMap` (src/tiny_map.rs) and `TinySet` (src/tiny_set.rs) start as an array container and move to a heap tree (`BTreeMap` / `BTreeSet`) when an insertion finds the array full.

What each file models:
- `lib.dfy`, module `Lib`: the pair behind `MapEntry` (src/lib.rs). It also holds the backing array behind `Array` with its `CAPACITY`, the slot of that array (`Slot`, uninitialised or holding a value), and `take(n)`.
- `ordered_maps.dfy` and `ordered_sets.dfy`: the ordered map and set the containers implement, written as functions on sequences. The reference operations `InsertEntry`/`RemoveEntry` and `InsertValue`/`RemoveValue` are written by recursion. Lemmas tie them to Dafny `map`/`set` semantics, to the shifted layouts the imperative code produces, and to in-order iteration (`InOrder`).
- `shifting.dfy`: the two swap loops that open and close a slot.
- `sorting.dfy`: the sort that `From<array>` performs.
- `array_map.dfy` and `array_set.dfy`:
  - classes over an `array<Slot<…>>` with a `len` field and a ghost `contents` (the occupied prefix);
  - `Valid()` says the prefix holds strictly ascending keys and the rest of the array is empty;
  - state-changing methods state the new `contents` through the reference functions, and the new `Model()` (the map or set stood for) through map/set operations.
- `tiny_map.dfy` and `tiny_set.dfy`: classes whose `state` is `Stack(arr)` or `Heap(tree)`. The tree is a Dafny `map`/`set`. `insert` swaps out the full array container, drains it into a new tree, inserts the pair there and moves to `Heap`.
- `scenarios.dfy`: the documentation's usage examples, written as client methods whose postconditions are the examples' assertions.

Modelling choices:
- Keys and set elements are `int`; map values are generic.
- A panic (indexing an absent key, `insert` into a full array container) is a precondition.
- A returned `&mut V` is the slot index it points at.
- Writing through `get_mut`, `value_mut` or `and_modify` is a caller-supplied function `f: V -> V` applied to the value.

Where the documentation and the code disagree, the model follows the code:
- `TinySet::insert`'s comment says it panics when the array is full (src/tiny_set.rs:164-166). The code promotes to the tree instead (src/tiny_set.rs:184-194).
- `TinyMap::capacity` and `TinySet::capacity` return the array's capacity in the `Heap` state as well (src/tiny_map.rs:132-134, src/tiny_set.rs:125-127). There is no separate value for the heap state.

## Model

| member | source | states |
|---|---|---|
| Lib.NewIntoPairRoundTrip | src/lib.rs:30-41 | `into_pair(new(k, v))` is `(k, v)`; `key` and `value` project the two components |
| Lib.ValueMutKeepsKey | src/lib.rs:42-44 | a write through `value_mut` changes the value only; the key is untouched, and writing the old value back changes nothing |
| Lib.AsSlice | src/lib.rs:62-71 | the slice of a `[T; n]` has `CAPACITY == n` cells, cell i being the array's cell i |
| Lib.Payloads | src/array_map.rs:709-711 | `assume_init` over a run of initialised slots yields their values, one per slot, in slot order |
| Lib.Take | src/array_map.rs:657-666 | `take(n)` yields the first `min(n, len)` items, as a prefix |
| Sorting.InsertBySorted | src/array_map.rs:582-587 | inserting into a sequence with nondecreasing keys keeps them nondecreasing |
| Sorting.SortBy | src/array_map.rs:581-592 | the sort used by `From<array>` yields a permutation of its input, nondecreasing by key |
| OrderedMaps.ToMapDomain | src/array_map.rs:163-169 | a key is in the map a pair sequence stands for exactly when some pair has that key |
| OrderedMaps.ToMapAt | src/array_map.rs:184-198 | in a strictly ascending sequence, the pair at slot i gives the map's value for its key |
| OrderedMaps.ToMapSize | src/array_map.rs:73-75 | for strictly ascending keys, `len` equals the number of keys of the map |
| OrderedMaps.InsertionPointAbsent | src/array_map.rs:140-148 | a key with an insertion point (all keys before it smaller, all after larger) is absent |
| OrderedMaps.InsertEntryModel | src/array_map.rs:450-481 | reference insertion keeps keys strictly ascending, updates the map at the key, and grows the length by one exactly when the key was absent |
| OrderedMaps.InsertEntryToMap | src/array_map.rs:450-481 | reference insertion stands for the old map updated at the key |
| OrderedMaps.InsertEntryAscending | src/array_map.rs:470-479 | reference insertion keeps keys strictly ascending; its first key is the smaller of the new key and the old first key |
| OrderedMaps.InsertEntryLength | src/array_map.rs:465-479 | reference insertion keeps the length for a present key and adds one for an absent key |
| OrderedMaps.InsertEntryAt | src/array_map.rs:470-479 | at the insertion point, reference insertion is the shift right that opens slot i plus the write of the pair there |
| OrderedMaps.InsertEntryOverwrites | src/array_map.rs:465-469 | for a key found at slot i, reference insertion replaces that slot and no other |
| OrderedMaps.RemoveEntryModel | src/array_map.rs:482-516 | reference removal keeps keys strictly ascending and stands for the old map without the key |
| OrderedMaps.RemoveEntryToMap | src/array_map.rs:506-516 | reference removal stands for the old map minus the key |
| OrderedMaps.RemoveEntryAscending | src/array_map.rs:482-491 | reference removal keeps keys strictly ascending and keeps only keys that were there |
| OrderedMaps.RemoveEntryAt | src/array_map.rs:482-491 | for the key at slot i, reference removal is the shift left that closes slot i |
| OrderedMaps.RemoveEntryAbsent | src/array_map.rs:506-516 | removing an absent key leaves the sequence as it is |
| OrderedMaps.AscendingUnique | src/array_map.rs:601-603 | two strictly ascending sequences that stand for the same map are equal, so comparing iterators compares maps |
| OrderedMaps.InsertAllAscending | src/tiny_map.rs:199-206 | inserting a strictly ascending run of pairs one by one into a tree yields the old tree joined with the run's map |
| OrderedMaps.InsertAllSnoc | src/array_map.rs:657-666 | inserting one more pair after a sequence updates the result at that pair's key |
| OrderedMaps.InsertAllSize | src/array_map.rs:657-666 | inserting n pairs adds at most n keys |
| OrderedMaps.InsertUntilFullStops | src/array_map.rs:675-684 | inserting until the first capacity rejection inserts a prefix of the items; if it stopped early, the map is exactly full; it never exceeds the capacity |
| OrderedMaps.InOrder | src/tiny_map.rs:156-161 | in-order iteration of a tree yields its pairs with strictly ascending keys, once each |
| OrderedMaps.AscendingIsInOrder | src/array_map.rs:251-255 | a strictly ascending sequence is the in-order iteration of the map it stands for |
| OrderedSets.AscendingCard | src/array_set.rs:86-88 | for strictly ascending values, `len` equals the number of elements |
| OrderedSets.ElementsCardBound | src/array_set.rs:388-397 | n inserted values give at most n elements |
| OrderedSets.InsertionPointAbsent | src/array_set.rs:142-150 | a value with an insertion point is absent |
| OrderedSets.InsertValueElements | src/array_set.rs:286-303 | reference insertion stands for the old set plus the value |
| OrderedSets.InsertValueAscending | src/array_set.rs:292-301 | reference insertion keeps values strictly ascending |
| OrderedSets.InsertValuePresent | src/array_set.rs:290-291 | inserting a present value leaves the sequence as it is |
| OrderedSets.InsertValueLength | src/array_set.rs:286-303 | reference insertion grows the length by one exactly when the value was absent |
| OrderedSets.InsertValueAt | src/array_set.rs:292-301 | at the insertion point, reference insertion is the shift right plus the write of the value |
| OrderedSets.RemoveValueElements | src/array_set.rs:319-336 | reference removal stands for the old set minus the value |
| OrderedSets.RemoveValueAscending | src/array_set.rs:319-336 | reference removal keeps values strictly ascending and keeps only values that were there |
| OrderedSets.RemoveValueAt | src/array_set.rs:325-333 | for the value at slot i, reference removal is the shift left that closes slot i |
| OrderedSets.RemoveValueAbsent | src/array_set.rs:319-336 | removing an absent value leaves the sequence as it is |
| OrderedSets.AscendingUnique | src/array_set.rs:137-141 | two strictly ascending sequences with the same elements are equal |
| OrderedSets.InOrder | src/tiny_set.rs:144-149 | in-order iteration of a tree set yields its elements strictly ascending, once each |
| OrderedSets.AscendingIsInOrder | src/array_set.rs:137-141 | a strictly ascending sequence is the in-order iteration of its set |
| Shifting.ShiftRight | src/array_map.rs:472-474 | the swap loop moves slot n to i and every slot of [i, n) up one; other slots are unchanged |
| Shifting.ShiftLeft | src/array_map.rs:487-489 | the swap loop moves slot i to n - 1 and every slot of (i, n) down one; other slots are unchanged |
| ArrayMaps.ArrayMap.constructor | src/array_map.rs:31-36 | `default`/`new`: all slots uninitialised, `len` 0, the empty map |
| ArrayMaps.ArrayMap.Len | src/array_map.rs:73-75 | `len` is the number of keys and at most the capacity |
| ArrayMaps.ArrayMap.IsEmpty | src/array_map.rs:90-92 | empty exactly when the map has no keys |
| ArrayMaps.ArrayMap.Capacity | src/array_map.rs:137-139 | the capacity is the array's length and bounds `len` |
| ArrayMaps.ArrayMap.Find | src/array_map.rs:140-148 | `Ok(i)`: the key sits at occupied slot i; `Err(i)`: i is its insertion point; `Ok` exactly when the key is in the map |
| ArrayMaps.ArrayMap.ContainsKey | src/array_map.rs:163-169 | true exactly when the key is in the map |
| ArrayMaps.ArrayMap.Get | src/array_map.rs:184-198 | the key's value if present, else `None` |
| ArrayMaps.ArrayMap.Index | src/array_map.rs:557-560 | the key's value; an absent key panics (precondition) |
| ArrayMaps.ArrayMap.ModifyAt | src/array_map.rs:1111-1113 | a write through the slot's `&mut V` changes that slot's value and nothing else |
| ArrayMaps.ArrayMap.GetMut | src/array_map.rs:215-229 | found exactly when the key is present; only that key's value changes; all keys stay |
| ArrayMaps.ArrayMap.Iter | src/array_map.rs:251-255 | yields the occupied prefix, strictly ascending by key, which is the in-order iteration of the map |
| ArrayMaps.ArrayMap.IntoIterAsWritten | src/array_map.rs:643-648 | the drain as written yields all `capacity` slots: the occupied prefix and then uninitialised slots |
| ArrayMaps.ArrayMap.IntoIter | src/array_map.rs:643-648 | the corrected drain yields the `len` stored pairs in ascending key order, the initialised prefix of the as-written drain; the two agree on a full map |
| ArrayMaps.ArrayMap.TryInsertIndex | src/array_map.rs:450-481 | full: `Err((key, value))` with no change, even for a present key; otherwise the reference insertion, the map updated at the key, the old value returned, and `len` grown by one exactly for an absent key |
| ArrayMaps.ArrayMap.OverwriteAt | src/array_map.rs:465-469 | for the key found at slot i: the slot gets the new pair, the old value is returned, and no other slot or `len` changes |
| ArrayMaps.ArrayMap.InsertAt | src/array_map.rs:470-479 | at the insertion point: the shifted layout with the pair at i, `len` + 1 |
| ArrayMaps.ArrayMap.TryInsert | src/array_map.rs:443-449 | as `try_insert_index` with the slot found by `find` |
| ArrayMaps.ArrayMap.Insert | src/array_map.rs:415-418 | with room: the map updated at the key, the old value returned; a full map panics (precondition) |
| ArrayMaps.ArrayMap.RemoveIndex | src/array_map.rs:482-491 | slot i's pair is returned, the tail shifts left, `len` - 1, and the map loses that key |
| ArrayMaps.ArrayMap.CloseSlot | src/array_map.rs:483-490 | slot i is emptied, the tail shifts left by swaps, `len` - 1, and the occupied prefix loses exactly slot i |
| ArrayMaps.ArrayMap.Remove | src/array_map.rs:506-516 | present: `Some(value)` and the key removed, `len` - 1; absent: `None` and no change |
| ArrayMaps.ArrayMap.Clear | src/array_map.rs:122-124 | the map becomes a new empty one |
| ArrayMaps.ArrayMap.GetEntry | src/array_map.rs:535-547 | `Occupied` exactly when the key is present, pointing at its slot; `Vacant` carries the key and its insertion point |
| ArrayMaps.ArrayMap.EntryKey | src/array_map.rs:946-951 | the entry's key, present exactly when the entry is occupied |
| ArrayMaps.ArrayMap.OccupiedGet | src/array_map.rs:1105-1107 | the occupied entry's value is the map's value at its key |
| ArrayMaps.ArrayMap.VacantInsert | src/array_map.rs:1045-1056 | inserts at the precomputed index, with the same effect as `try_insert` of an absent key; returns that slot |
| ArrayMaps.ArrayMap.VacantTryInsert | src/array_map.rs:1065-1073 | full: `Err((key, value))` and no change; otherwise as `VacantEntry::insert` |
| ArrayMaps.ArrayMap.OccupiedModify | src/array_map.rs:1111-1113 | a write through `get_mut` changes only the entry's value |
| ArrayMaps.ArrayMap.OccupiedInsert | src/array_map.rs:1117-1119 | the new value is swapped in and the old one returned |
| ArrayMaps.ArrayMap.OccupiedRemoveEntry | src/array_map.rs:1137-1139 | the entry's pair is returned and its key removed from the map |
| ArrayMaps.ArrayMap.OccupiedRemove | src/array_map.rs:1131-1133 | the entry's value is returned and its key removed from the map |
| ArrayMaps.ArrayMap.OrInsert | src/array_map.rs:834-839 | occupied: no change, the existing slot; vacant: the default inserted at the precomputed slot |
| ArrayMaps.ArrayMap.OrTryInsert | src/array_map.rs:863-868 | `Err` exactly for a vacant entry of a full map, with no change; otherwise as `or_insert` |
| ArrayMaps.ArrayMap.AndModify | src/array_map.rs:973-981 | the map changes only when the entry is occupied, and then only its value; the entry is passed on |
| ArrayMaps.ArrayMap.FromIter | src/array_map.rs:657-666 | the map of inserting the first `capacity` pairs one after the other into an empty map |
| ArrayMaps.ArrayMap.Extend | src/array_map.rs:675-684 | the map of inserting the pairs one by one, stopping at the first capacity rejection |
| ArrayMaps.ArrayMap.FromArray | src/array_map.rs:581-592 | corrected `From<array>`: a valid map of capacity n holding the array's pairs, the last value winning for a repeated key |
| ArrayMaps.Equal | src/array_map.rs:601-603 | equal iterators exactly when the occupied prefixes are equal, which is exactly when the maps are equal |
| ArrayMaps.FromArrayAsWritten | src/array_map.rs:581-592 | `From<array>` as written: the array sorted by key, a permutation of all n pairs kept as the occupied prefix |
| ArrayMaps.FromArrayAsWrittenKeepsDuplicates | src/array_map.rs:581-592 | for [(1, 10), (1, 20)] the as-written result's keys do not strictly ascend, and its `len` exceeds its number of keys |
| ArrayMaps.IntoIterAsWrittenYieldsUninit | src/array_map.rs:643-648 | a map that is not full drains, as written, into more items than it holds, including an uninitialised slot |
| ArraySets.ArraySet.constructor | src/array_set.rs:31-36 | all slots uninitialised, `len` 0, the empty set |
| ArraySets.ArraySet.Len | src/array_set.rs:86-88 | `len` is the number of elements and at most the capacity |
| ArraySets.ArraySet.IsEmpty | src/array_set.rs:103-105 | empty exactly when the set has no elements |
| ArraySets.ArraySet.Capacity | src/array_set.rs:118-120 | the capacity is the array's length and bounds `len` |
| ArraySets.ArraySet.Iter | src/array_set.rs:137-141 | yields exactly the `len` stored values, strictly ascending: the set's in-order iteration |
| ArraySets.ArraySet.IntoIterAsWritten | src/array_set.rs:374-379 | the drain as written yields all `capacity` slots, occupied or not |
| ArraySets.ArraySet.IntoIter | src/array_set.rs:374-379 | the corrected drain yields the `len` stored values, the initialised prefix of the as-written drain; the two agree on a full set |
| ArraySets.ArraySet.Find | src/array_set.rs:142-150 | `Ok(i)`: the value sits at slot i; `Err(i)`: its insertion point; `Ok` exactly when present |
| ArraySets.ArraySet.Contains | src/array_set.rs:164-170 | true exactly when the value is in the set |
| ArraySets.ArraySet.Get | src/array_set.rs:184-194 | the stored equal element if present, else `None` |
| ArraySets.ArraySet.InsertAt | src/array_set.rs:292-301 | at the insertion point: the shifted layout with the value at i, `len` + 1 |
| ArraySets.ArraySet.TryInsert | src/array_set.rs:286-303 | full: `Err(value)` with no change, even for a present value; otherwise `Ok(absent)`, the set plus the value, `len` + 1 exactly when absent |
| ArraySets.ArraySet.Insert | src/array_set.rs:258-261 | with room: true exactly when the value was absent, and the set plus the value; a full set panics (precondition) |
| ArraySets.ArraySet.Remove | src/array_set.rs:319-336 | true exactly when present; the set minus the value; `len` - 1 exactly when removed |
| ArraySets.ArraySet.RemoveAt | src/array_set.rs:325-333 | the value at slot i is taken out and the tail shifted left |
| ArraySets.ArraySet.Clear | src/array_set.rs:69-71 | the set becomes a new empty one |
| ArraySets.ArraySet.FromIter | src/array_set.rs:388-397 | the set of the first `capacity` values |
| ArraySets.ArraySet.FromArray | src/array_set.rs:354-364 | corrected `From<array>`: a valid set of capacity n holding the array's values, each once |
| ArraySets.FromArrayAsWritten | src/array_set.rs:354-364 | `From<array>` as written: the array sorted, all n values kept as the occupied prefix |
| ArraySets.FromArrayAsWrittenKeepsDuplicates | src/array_set.rs:354-364 | for [1, 1] the as-written result does not strictly ascend, and its `len` exceeds its number of elements |
| ArraySets.IntoIterAsWrittenYieldsUninit | src/array_set.rs:374-379 | a set that is not full drains, as written, into more values than it holds, including an uninitialised slot |
| TinyMaps.TinyMap.constructor | src/tiny_map.rs:40-42 | `new`/`default`: the `Stack` state with an empty array map |
| TinyMaps.TinyMap.FromArrayMap | src/tiny_map.rs:468-470 | `From<ArrayMap>`: the `Stack` state around that map, contents unchanged |
| TinyMaps.TinyMap.FromArray | src/tiny_map.rs:479-481 | `From<array>`: the `Stack` state holding the corrected array map of the array's pairs |
| TinyMaps.TinyMap.Clear | src/tiny_map.rs:56-58 | back to the `Stack` state with an empty map, from either state |
| TinyMaps.TinyMap.Len | src/tiny_map.rs:90-95 | the number of keys in either state; at most the capacity in the `Stack` state |
| TinyMaps.TinyMap.IsEmpty | src/tiny_map.rs:110-112 | empty exactly when there are no keys |
| TinyMaps.TinyMap.Capacity | src/tiny_map.rs:132-134 | the array's capacity in both states |
| TinyMaps.TinyMap.Iter | src/tiny_map.rs:156-161 | the in-order iteration of the map, whichever state it is in |
| TinyMaps.TinyMap.Insert | src/tiny_map.rs:195-213 | the map updated at the key and the plain ordered-map result (the old value or `None`); stays `Stack` on the same array map when it fits, promotes to `Heap` when the array map is full, stays `Heap` once there |
| TinyMaps.TinyMap.Promote | src/tiny_map.rs:199-208 | draining a full array map into an empty tree and inserting the rejected pair gives the old contents updated with the pair, and the old value at the key |
| TinyMaps.TinyMap.Get | src/tiny_map.rs:236-245 | the key's value if present, else `None`, in either state |
| TinyMaps.TinyMap.ContainsKey | src/tiny_map.rs:268-277 | true exactly when the key is present, in either state |
| TinyMaps.TinyMap.GetMut | src/tiny_map.rs:294-303 | found exactly when present; only that key's value changes; the state kind is kept |
| TinyMaps.TinyMap.Remove | src/tiny_map.rs:425-434 | the old value or `None`; the map minus the key; the state kind is kept |
| TinyMaps.TinyMap.Index | src/tiny_map.rs:445-448 | the key's value; an absent key panics (precondition) |
| TinyMaps.TinyMap.FromIter | src/tiny_map.rs:491-500 | the map of the first `capacity` pairs, always in the `Stack` state |
| TinySets.TinySet.constructor | src/tiny_set.rs:26-28 | `new`/`default`: the `Stack` state with an empty array set |
| TinySets.TinySet.FromArraySet | src/tiny_set.rs:300-302 | `From<ArraySet>`: the `Stack` state around that set, contents unchanged |
| TinySets.TinySet.FromArray | src/tiny_set.rs:310-312 | `From<array>`: the `Stack` state holding the corrected array set |
| TinySets.TinySet.Clear | src/tiny_set.rs:61-63 | back to the `Stack` state with an empty set, from either state |
| TinySets.TinySet.Len | src/tiny_set.rs:84-89 | the number of elements in either state; at most the capacity in the `Stack` state |
| TinySets.TinySet.IsEmpty | src/tiny_set.rs:104-106 | empty exactly when there are no elements |
| TinySets.TinySet.Capacity | src/tiny_set.rs:125-127 | the array's capacity in both states |
| TinySets.TinySet.Iter | src/tiny_set.rs:144-149 | the in-order iteration of the set, whichever state it is in |
| TinySets.TinySet.IntoIter | src/tiny_set.rs:322-327 | the consuming drain yields what `iter` yields, in either state (with the corrected array drain) |
| TinySets.TinySet.Insert | src/tiny_set.rs:180-198 | the set plus the value; true exactly when it was absent; stays `Stack` on the same array set when it fits, promotes to `Heap` when full, stays `Heap` once there |
| TinySets.TinySet.Promote | src/tiny_set.rs:184-194 | draining a full array set into an empty tree and inserting the rejected value gives the old elements plus the value |
| TinySets.TinySet.Contains | src/tiny_set.rs:219-228 | true exactly when the value is present, in either state |
| TinySets.TinySet.Get | src/tiny_set.rs:242-251 | the stored equal element if present, else `None` |
| TinySets.TinySet.Remove | src/tiny_set.rs:274-283 | true exactly when present; the set minus the value; the state kind is kept |
| TinySets.TinySet.FromIter | src/tiny_set.rs:336-345 | the set of the first `capacity` values, always in the `Stack` state |
| Scenarios.ArrayMapInsertOverwrites | src/array_map.rs:400-412 | inserting 37 three times gives `None`, then `Some("b")`, and indexing gives `"c"` |
| Scenarios.ArrayMapTryInsertRejectsWhenFull | src/array_map.rs:429-440 | a fourth pair into a map of capacity 3 is handed back |
| Scenarios.ArrayMapRemoveTwice | src/array_map.rs:495-503 | the first remove gives `Some("a")`, the second `None` |
| Scenarios.ArrayMapEntryCounter | src/array_map.rs:955-970 | `and_modify(+1).or_insert(42)` twice gives 42, then 43 |
| Scenarios.TinyMapPromotionKeepsLookups | src/tiny_map.rs:195-245 | after promotion, lookups of the earlier and the new key give their values |
| Scenarios.TinyMapRemoveTwice | src/tiny_map.rs:414-434 | the first remove gives `Some("a")`, the second `None` |
| Scenarios.TinySetInsertTwice | src/tiny_set.rs:169-198 | inserting 2 twice gives true, then false, and `len` 1 |

## Left out

- Generic keys: keys and set elements are `int`. The `Ord` bound and `Borrow<Q>` lookups by a borrowed form of the key are not modelled.
- Uninitialised memory is the `Uninit` slot. The model does not cover `zeroed()`, `assume_init` on memory that was never written, `drop_in_place`, `Drop` and leak or double-free freedom, nor the `Clone`/`copy` boilerplate.
- `or_insert_with`, `or_try_insert_with` and `or_default`: they compute the default and then behave as `OrInsert`/`OrTryInsert` with it.
- `VacantEntry::into_key` and `OccupiedEntry::into_mut`: ownership moves. They are the entry's key and its slot index.
- The borrowing iterators `iter_mut`, `keys`, `values` and `values_mut`: projections of `Iter`, not modelled separately. `TinyMap::into_iter` does not exist in src/tiny_map.rs.
- `fmt::Debug`: formatting only.
- The probing order of the standard library's `binary_search_by_key`. `Find` is a binary search, and only its result is specified.
- `BTreeMap`/`BTreeSet` internals: the `Heap` state is a Dafny `map`/`set`, so `TinyMap.Iter`, `TinySet.Iter` and `TinySet.IntoIter` are ghost functions.
- src/serialize.rs: serde glue over a deserializer that is not part of this model.
- benches/: timing harnesses.
- ArraySets.ArraySet.FromArray and ArraySets.ArraySet.FromIter: state the resulting set, not the slot layout. The layout follows from `Valid()` and `OrderedSets.AscendingIsInOrder`.

## Findings

| source | as written | input that shows it | evidently intended | confidence | as-written member | corrected member |
|---|---|---|---|---|---|---|
| src/array_map.rs:581-592 | `From<array>` sorts the array by key and declares all `CAPACITY` slots occupied, keeping repeated keys | `[(1, 10), (1, 20)]`: two slots with key 1, so `len` is 2 for a single key | a valid map: strictly ascending keys, each once, the last value winning | not executed | ArrayMaps.FromArrayAsWrittenKeepsDuplicates | ArrayMaps.ArrayMap.FromArray |
| src/array_set.rs:354-364 | `From<array>` sorts the array and declares all `CAPACITY` slots occupied, keeping repeated values | `[1, 1]`: two slots holding 1, so `len` is 2 for a one-element set | a valid set: strictly ascending values, each once | not executed | ArraySets.FromArrayAsWrittenKeepsDuplicates | ArraySets.ArraySet.FromArray |
| src/array_map.rs:643-648 | the consuming `into_iter` drains every slot of the backing array and `assume_init`s each, whatever `len` is | an empty map of capacity 1: one item is yielded from a slot that was never written | yield the `len` stored pairs only | not executed | ArrayMaps.IntoIterAsWrittenYieldsUninit | ArrayMaps.ArrayMap.IntoIter |
| src/array_set.rs:374-379 | the consuming `into_iter` drains every slot of the backing array, whatever `len` is | an empty set of capacity 1: one value is yielded from a slot that was never written | yield the `len` stored values only | not executed | ArraySets.IntoIterAsWrittenYieldsUninit | ArraySets.ArraySet.IntoIter |
