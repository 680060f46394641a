# Sorted-iteration view of a long-to-object hash map

This project models HPPC's `SortedIterationLongObjectHashMap`, as vendored in the EaglercraftX workspace. The class is a
read-only view over a `LongObjectHashMap` (an open-addressing table from `long` keys to object values). The view
iterates the table's entries in the order of a comparator the caller supplies.

- **Construction.** The view lists the slots of the delegate that hold an entry (`createEntryIndexes`). The reserved
  slot of the key 0 comes first, then the occupied regular slots in ascending order. It then sorts that array with the
  comparator applied to the keys, or to the (key, value) pairs, in those slots (`sortIterationOrder`). The result is
  `iterationOrder`.
- **Traversal.** The entry, key and value iterators, both `forEach` methods, and the key and value containers all walk
  `iterationOrder`. Each reads `keys[slot]` and `values[slot]` from the delegate at the moment it gets there.
- **Lookups.** `get`, `getOrDefault`, `containsKey`, `indexOf`, `indexExists`, `indexGet`, `isEmpty` and
  `size` pass straight through to the delegate.
- **Writes.** Every write fails with a read-only violation.
- **Guard.** `checkUnmodified` compares only sizes, and it is an assertion in the source. It appears here as the
  predicate `CheckUnmodified`, which the operations that assert it require of their callers.

The model's main claims:

- **Construction.** A view built from a well-formed delegate visits every entry exactly once (`Unmodified`). Its slots
  are in comparator order, pairwise, whenever the comparator is total and transitive on every key (or key/value pair) in the delegate's arrays, the 0 keys
  of free slots and of the reserved slot included.
- **Lookups agree with iteration.** While the delegate is unmodified, a lookup answers exactly what iteration would show.
  `containsKey` is true exactly for the iterated keys, and `get` finds the value iteration pairs with the key.
  `indexOf` returns a slot that iteration reports for that key, and `indexGet` returns the value iteration reports
  for that slot.
- **Traversals.** Every traversal is tied to the same ordered sequence of entries. `forEach` with a procedure is a fold
  over it. `forEach` with a predicate is the same fold cut off right after the first entry the predicate rejects. Each
  iterator's `fetch` hands out the next element of it.

Files:

- `long_types.dfy`: Java's `long` as a 64-bit integer type, `~` (bitwise not), and the `Option`/`Result`
  types that stand for `null` and for the read-only exception.
- `long_object_hash_map.dfy`: the part of the delegate's state and reads that the view relies on.
- `entry_slots.dfy`: the slot list `createEntryIndexes` builds, and the scan that builds it.
- `indirect_sort.dfy`: the indirect in-place sort the view hands its slot array to.
- `folds.dfy`: what a traversal does to a stateful procedure or predicate.
- `sorted_iteration.dfy`: the view, its three iterators and its key and value containers.

Definitions the contracts below are stated in (reference definitions, not operations):

- `SortedIteration.SortedIterationLongObjectHashMap.OrderedEntries`: the entries iteration reports, in order. Position
  i holds the slot `iterationOrder[i]` with the key and value the delegate holds there now.
- `SortedIteration.SortedIterationLongObjectHashMap.OrderedKeys` and `OrderedValues`: the keys and values of those
  entries.
- `SortedIteration.KeyValuePayload`: the (key, value) pair of each slot, which the pair comparator compares.
- `SortedIteration.SortedIterationLongObjectHashMap.Unmodified`: the delegate has not changed structurally since the view
  was built, that is, `iterationOrder` lists each occupied slot exactly once.

## Model

| member | source | states |
|---|---|---|
| SortedIteration.SortedIterationLongObjectHashMap.ByKeys | EaglercraftX-1.8-workspace-master/src/main/java/com/carrotsearch/hppc/SortedIterationLongObjectHashMap.java:38-42 | the view keeps the delegate; its fresh iteration order visits every entry of the delegate exactly once (so the size guard holds) and lists the slots with keys in comparator order, pairwise, for a comparator total and transitive on every key in the delegate's arrays (free slots' 0 included) |
| SortedIteration.SortedIterationLongObjectHashMap.ByKeysAndValues | EaglercraftX-1.8-workspace-master/src/main/java/com/carrotsearch/hppc/SortedIterationLongObjectHashMap.java:48-52 | the same, with (key, value) pairs in comparator order |
| SortedIteration.SortedIterationLongObjectHashMap.IterationOrderByKeys | EaglercraftX-1.8-workspace-master/src/main/java/com/carrotsearch/hppc/SortedIterationLongObjectHashMap.java:41 | `sortIterationOrder(createEntryIndexes(), comparator)`: a fresh array of `size()` slots listing every entry once, neighbours in key order |
| SortedIteration.SortedIterationLongObjectHashMap.IterationOrderByKeysAndValues | EaglercraftX-1.8-workspace-master/src/main/java/com/carrotsearch/hppc/SortedIterationLongObjectHashMap.java:51 | the same for the (key, value) comparator |
| SortedIteration.SortedIterationLongObjectHashMap.CreateEntryIndexes | EaglercraftX-1.8-workspace-master/src/main/java/com/carrotsearch/hppc/SortedIterationLongObjectHashMap.java:54-68 | a fresh array equal to the reserved slot (if the key 0 is present) followed by the occupied regular slots in ascending order; it lists every entry once |
| EntrySlots.ScanSlots | EaglercraftX-1.8-workspace-master/src/main/java/com/carrotsearch/hppc/SortedIterationLongObjectHashMap.java:57-66 | the scan loop fills the array with exactly that list, stopping once `size` entries have been found |
| EntrySlots.RegularSlotsCount | EaglercraftX-1.8-workspace-master/src/main/java/com/carrotsearch/hppc/SortedIterationLongObjectHashMap.java:62-66 | the occupied regular slots are as many as the occupied keys |
| EntrySlots.RegularSlotsMembers | EaglercraftX-1.8-workspace-master/src/main/java/com/carrotsearch/hppc/SortedIterationLongObjectHashMap.java:63-64 | a regular slot is listed exactly when its key is non-zero |
| EntrySlots.RegularSlotsIncreasing | EaglercraftX-1.8-workspace-master/src/main/java/com/carrotsearch/hppc/SortedIterationLongObjectHashMap.java:62-66 | the scan lists regular slots in strictly ascending order |
| EntrySlots.PrefixSnoc | EaglercraftX-1.8-workspace-master/src/main/java/com/carrotsearch/hppc/SortedIterationLongObjectHashMap.java:62-66 | one scan step appends the slot exactly when its key is non-zero, and counts it |
| EntrySlots.CountPrefix | EaglercraftX-1.8-workspace-master/src/main/java/com/carrotsearch/hppc/SortedIterationLongObjectHashMap.java:62 | a prefix of the table holds at most the table's occupied keys |
| EntrySlots.RegularSlotsSaturated | EaglercraftX-1.8-workspace-master/src/main/java/com/carrotsearch/hppc/SortedIterationLongObjectHashMap.java:62 | once a prefix holds every occupied key it lists every occupied slot, so stopping at `entry == size` misses nothing |
| EntrySlots.EntryIndexesLength | EaglercraftX-1.8-workspace-master/src/main/java/com/carrotsearch/hppc/SortedIterationLongObjectHashMap.java:56-57 | the list has exactly `size()` elements |
| EntrySlots.EntryIndexesExact | EaglercraftX-1.8-workspace-master/src/main/java/com/carrotsearch/hppc/SortedIterationLongObjectHashMap.java:59-66 | a slot is listed iff it holds an entry |
| EntrySlots.EntryIndexesOrder | EaglercraftX-1.8-workspace-master/src/main/java/com/carrotsearch/hppc/SortedIterationLongObjectHashMap.java:59-66 | the reserved slot comes first when present, regular slots ascend, no slot is listed twice |
| EntrySlots.EntryIndexesInBounds | EaglercraftX-1.8-workspace-master/src/main/java/com/carrotsearch/hppc/SortedIterationLongObjectHashMap.java:60-64 | every listed slot indexes the delegate's arrays |
| EntrySlots.EntryIndexesListEntries | EaglercraftX-1.8-workspace-master/src/main/java/com/carrotsearch/hppc/SortedIterationLongObjectHashMap.java:54-68 | the list lists every entry exactly once |
| EntrySlots.PermutationListsEntries | EaglercraftX-1.8-workspace-master/src/main/java/com/carrotsearch/hppc/SortedIterationLongObjectHashMap.java:72-77 | any permutation of such a list (what sorting leaves) still lists every entry exactly once |
| EntrySlots.PermutationKeepsSlots | EaglercraftX-1.8-workspace-master/src/main/java/com/carrotsearch/hppc/SortedIterationLongObjectHashMap.java:72-77 | a permutation of slot numbers in bounds stays in bounds |
| SortedIteration.SortedIterationLongObjectHashMap.SortIterationOrderByKeys | EaglercraftX-1.8-workspace-master/src/main/java/com/carrotsearch/hppc/SortedIterationLongObjectHashMap.java:71-79 | sorts the given array in place and returns it: a permutation of its old contents whose neighbours are in key order |
| SortedIteration.SortedIterationLongObjectHashMap.SortIterationOrderByKeysAndValues | EaglercraftX-1.8-workspace-master/src/main/java/com/carrotsearch/hppc/SortedIterationLongObjectHashMap.java:82-97 | the same with the (key, value) comparator, reading keys and values of the slots |
| IndirectSort.Sort | EaglercraftX-1.8-workspace-master/src/main/java/com/carrotsearch/hppc/SortedIterationLongObjectHashMap.java:72-77 | the in-place indirect sort: the array ends a permutation of what it held, in bounds, neighbours ordered by the comparator on the payloads they designate |
| IndirectSort.InsertDown | EaglercraftX-1.8-workspace-master/src/main/java/com/carrotsearch/hppc/SortedIterationLongObjectHashMap.java:72-77 | one insertion step extends the ordered prefix by one element: it rearranges only `a[..i + 1]` (same multiset there), leaves everything after `i` as it was, and ends with the prefix in order |
| IndirectSort.SwapKeepsSuffix | EaglercraftX-1.8-workspace-master/src/main/java/com/carrotsearch/hppc/SortedIterationLongObjectHashMap.java:72-77 | an exchange of neighbours at or below `i` leaves everything after `i` as it was |
| IndirectSort.InsertedInOrder | EaglercraftX-1.8-workspace-master/src/main/java/com/carrotsearch/hppc/SortedIterationLongObjectHashMap.java:72-77 | once the moving element has stopped, the whole prefix is in order |
| IndirectSort.PrefixRearranged | EaglercraftX-1.8-workspace-master/src/main/java/com/carrotsearch/hppc/SortedIterationLongObjectHashMap.java:72-77 | two arrangements of the same elements with the same suffix arrange the same elements before it |
| IndirectSort.SwapDown | EaglercraftX-1.8-workspace-master/src/main/java/com/carrotsearch/hppc/SortedIterationLongObjectHashMap.java:72-77 | an exchange of neighbours keeps the multiset |
| IndirectSort.SwapDownKeepsOrder | EaglercraftX-1.8-workspace-master/src/main/java/com/carrotsearch/hppc/SortedIterationLongObjectHashMap.java:72-77 | a swap of an out-of-order pair moves the gap one place down |
| IndirectSort.AdjacentSortedIsSorted | EaglercraftX-1.8-workspace-master/src/main/java/com/carrotsearch/hppc/SortedIterationLongObjectHashMap.java:72-77 | for a transitive comparator, ordered neighbours mean every pair is ordered |
| IndirectSort.OrderedAcross | EaglercraftX-1.8-workspace-master/src/main/java/com/carrotsearch/hppc/SortedIterationLongObjectHashMap.java:72-77 | ordered neighbours give order between any two positions |
| SortedIteration.KeysInOrder | EaglercraftX-1.8-workspace-master/src/main/java/com/carrotsearch/hppc/SortedIterationLongObjectHashMap.java:71-79 | the sorted slot array lists keys in comparator order, pairwise |
| SortedIteration.KeyValuesInOrder | EaglercraftX-1.8-workspace-master/src/main/java/com/carrotsearch/hppc/SortedIterationLongObjectHashMap.java:82-97 | the sorted slot array lists (key, value) pairs in comparator order, pairwise |
| SortedIteration.SortedIterationLongObjectHashMap.IteratedKeysAreContained | EaglercraftX-1.8-workspace-master/src/main/java/com/carrotsearch/hppc/SortedIterationLongObjectHashMap.java:105-108 | while unmodified, the iterated keys are exactly the keys the delegate contains |
| SortedIteration.SortedIterationLongObjectHashMap.IteratedEntriesAreFound | EaglercraftX-1.8-workspace-master/src/main/java/com/carrotsearch/hppc/SortedIterationLongObjectHashMap.java:176-179 | while unmodified, looking up an iterated key finds the value iteration pairs it with |
| SortedIteration.SortedIterationLongObjectHashMap.OccupiedSlotIsIterated | EaglercraftX-1.8-workspace-master/src/main/java/com/carrotsearch/hppc/SortedIterationLongObjectHashMap.java:264-279 | while unmodified, every occupied slot is visited, with its key and value |
| SortedIteration.SortedIterationLongObjectHashMap.IteratedKeysAreDistinct | EaglercraftX-1.8-workspace-master/src/main/java/com/carrotsearch/hppc/SortedIterationLongObjectHashMap.java:264-279 | while unmodified, no key is visited twice |
| SortedIteration.SortedIterationLongObjectHashMap.CheckUnmodified | EaglercraftX-1.8-workspace-master/src/main/java/com/carrotsearch/hppc/SortedIterationLongObjectHashMap.java:255-261 | the size guard never fails while the delegate is unmodified (it can pass on a modified delegate of the same size, which is why stronger properties are stated under `Unmodified`) |
| SortedIteration.SortedIterationLongObjectHashMap.Size | EaglercraftX-1.8-workspace-master/src/main/java/com/carrotsearch/hppc/SortedIterationLongObjectHashMap.java:110-114 | under the size guard, the number of slots iteration visits |
| SortedIteration.SortedIterationLongObjectHashMap.IsEmpty | EaglercraftX-1.8-workspace-master/src/main/java/com/carrotsearch/hppc/SortedIterationLongObjectHashMap.java:116-119 | while unmodified, true exactly when iteration visits nothing |
| SortedIteration.SortedIterationLongObjectHashMap.ContainsKey | EaglercraftX-1.8-workspace-master/src/main/java/com/carrotsearch/hppc/SortedIterationLongObjectHashMap.java:105-108 | while unmodified, true exactly for the iterated keys |
| SortedIteration.SortedIterationLongObjectHashMap.Get | EaglercraftX-1.8-workspace-master/src/main/java/com/carrotsearch/hppc/SortedIterationLongObjectHashMap.java:176-179 | while unmodified, a value exactly for iterated keys, and the value iteration pairs with the key |
| SortedIteration.SortedIterationLongObjectHashMap.GetOrDefault | EaglercraftX-1.8-workspace-master/src/main/java/com/carrotsearch/hppc/SortedIterationLongObjectHashMap.java:181-184 | what `get` finds, or the default when it finds nothing |
| SortedIteration.SortedIterationLongObjectHashMap.IndexOf | EaglercraftX-1.8-workspace-master/src/main/java/com/carrotsearch/hppc/SortedIterationLongObjectHashMap.java:206-209 | while unmodified, non-negative exactly for iterated keys, and then a slot iteration reports with that key |
| SortedIteration.SortedIterationLongObjectHashMap.IndexExists | EaglercraftX-1.8-workspace-master/src/main/java/com/carrotsearch/hppc/SortedIterationLongObjectHashMap.java:211-214 | while unmodified, for an index `indexOf` returned: true exactly for slots iteration visits |
| SortedIteration.SortedIterationLongObjectHashMap.IndexGet | EaglercraftX-1.8-workspace-master/src/main/java/com/carrotsearch/hppc/SortedIterationLongObjectHashMap.java:216-219 | the value `get` finds for the slot's key, and the value iteration reports for that slot |
| SortedIteration.SortedIterationLongObjectHashMap.Iterator | EaglercraftX-1.8-workspace-master/src/main/java/com/carrotsearch/hppc/SortedIterationLongObjectHashMap.java:99-103 | under the size guard, a fresh entry iterator over this view at position 0 |
| SortedIteration.SortedIterationLongObjectHashMap.Keys | EaglercraftX-1.8-workspace-master/src/main/java/com/carrotsearch/hppc/SortedIterationLongObjectHashMap.java:164-168 | under the size guard, a fresh key container over this view |
| SortedIteration.SortedIterationLongObjectHashMap.Values | EaglercraftX-1.8-workspace-master/src/main/java/com/carrotsearch/hppc/SortedIterationLongObjectHashMap.java:170-174 | under the size guard, a fresh value container over this view |
| SortedIteration.SortedIterationLongObjectHashMap.ForEachProcedure | EaglercraftX-1.8-workspace-master/src/main/java/com/carrotsearch/hppc/SortedIterationLongObjectHashMap.java:136-147 | the procedure's final state is its fold over the entries in iteration order |
| SortedIteration.SortedIterationLongObjectHashMap.ForEachPredicate | EaglercraftX-1.8-workspace-master/src/main/java/com/carrotsearch/hppc/SortedIterationLongObjectHashMap.java:149-162 | the predicate's final state is that of the traversal in iteration order that stops right after the first rejected entry |
| Folds.RunWhileStopsAtFirstFalse | EaglercraftX-1.8-workspace-master/src/main/java/com/carrotsearch/hppc/SortedIterationLongObjectHashMap.java:155-160 | a predicate traversal visits a prefix: it continued at every visited entry but the last, stopped early only on a false answer, and its state is the fold over the visited prefix |
| Folds.RunWhileFrom | EaglercraftX-1.8-workspace-master/src/main/java/com/carrotsearch/hppc/SortedIterationLongObjectHashMap.java:155-160 | the same, from any position reached by continuing |
| Folds.FoldSnoc | EaglercraftX-1.8-workspace-master/src/main/java/com/carrotsearch/hppc/SortedIterationLongObjectHashMap.java:142-145 | one more step of a procedure traversal applies the procedure to the next entry |
| Folds.FoldCorrespondence | EaglercraftX-1.8-workspace-master/src/main/java/com/carrotsearch/hppc/SortedIterationLongObjectHashMap.java:291-295 | a traversal of keys or values with a procedure is the entry traversal with the adapted procedure |
| Folds.RunWhileCorrespondence | EaglercraftX-1.8-workspace-master/src/main/java/com/carrotsearch/hppc/SortedIterationLongObjectHashMap.java:297-301 | the same for predicate traversals |
| SortedIteration.SortedIterationLongObjectHashMap.Put | EaglercraftX-1.8-workspace-master/src/main/java/com/carrotsearch/hppc/SortedIterationLongObjectHashMap.java:186-189 | rejected with a read-only violation; nothing changes |
| SortedIteration.SortedIterationLongObjectHashMap.PutAllFrom | EaglercraftX-1.8-workspace-master/src/main/java/com/carrotsearch/hppc/SortedIterationLongObjectHashMap.java:191-194 | rejected with a read-only violation |
| SortedIteration.SortedIterationLongObjectHashMap.PutAll | EaglercraftX-1.8-workspace-master/src/main/java/com/carrotsearch/hppc/SortedIterationLongObjectHashMap.java:196-199 | rejected with a read-only violation |
| SortedIteration.SortedIterationLongObjectHashMap.Remove | EaglercraftX-1.8-workspace-master/src/main/java/com/carrotsearch/hppc/SortedIterationLongObjectHashMap.java:201-204 | rejected with a read-only violation |
| SortedIteration.SortedIterationLongObjectHashMap.RemoveAllKeys | EaglercraftX-1.8-workspace-master/src/main/java/com/carrotsearch/hppc/SortedIterationLongObjectHashMap.java:121-124 | rejected with a read-only violation |
| SortedIteration.SortedIterationLongObjectHashMap.RemoveAllKeysMatching | EaglercraftX-1.8-workspace-master/src/main/java/com/carrotsearch/hppc/SortedIterationLongObjectHashMap.java:126-129 | rejected with a read-only violation |
| SortedIteration.SortedIterationLongObjectHashMap.RemoveAllMatching | EaglercraftX-1.8-workspace-master/src/main/java/com/carrotsearch/hppc/SortedIterationLongObjectHashMap.java:131-134 | rejected with a read-only violation |
| SortedIteration.SortedIterationLongObjectHashMap.IndexReplace | EaglercraftX-1.8-workspace-master/src/main/java/com/carrotsearch/hppc/SortedIterationLongObjectHashMap.java:221-224 | rejected with a read-only violation |
| SortedIteration.SortedIterationLongObjectHashMap.IndexInsert | EaglercraftX-1.8-workspace-master/src/main/java/com/carrotsearch/hppc/SortedIterationLongObjectHashMap.java:226-229 | rejected with a read-only violation |
| SortedIteration.SortedIterationLongObjectHashMap.IndexRemove | EaglercraftX-1.8-workspace-master/src/main/java/com/carrotsearch/hppc/SortedIterationLongObjectHashMap.java:231-234 | rejected with a read-only violation |
| SortedIteration.SortedIterationLongObjectHashMap.Clear | EaglercraftX-1.8-workspace-master/src/main/java/com/carrotsearch/hppc/SortedIterationLongObjectHashMap.java:236-239 | rejected with a read-only violation |
| SortedIteration.SortedIterationLongObjectHashMap.Release | EaglercraftX-1.8-workspace-master/src/main/java/com/carrotsearch/hppc/SortedIterationLongObjectHashMap.java:241-244 | rejected with a read-only violation |
| SortedIteration.EntryIterator.constructor | EaglercraftX-1.8-workspace-master/src/main/java/com/carrotsearch/hppc/SortedIterationLongObjectHashMap.java:264-266 | a new iterator starts at position 0 |
| SortedIteration.EntryIterator.Fetch | EaglercraftX-1.8-workspace-master/src/main/java/com/carrotsearch/hppc/SortedIterationLongObjectHashMap.java:268-278 | before the end, the entry iteration reports at the current position, moving one on; at the end, done, staying put |
| SortedIteration.KeysIterator.constructor | EaglercraftX-1.8-workspace-master/src/main/java/com/carrotsearch/hppc/SortedIterationLongObjectHashMap.java:340-342 | a new key iterator starts at position 0 |
| SortedIteration.KeysIterator.Fetch | EaglercraftX-1.8-workspace-master/src/main/java/com/carrotsearch/hppc/SortedIterationLongObjectHashMap.java:344-353 | before the end, the slot and key at the current position, moving one on; at the end, done |
| SortedIteration.ValuesIterator.constructor | EaglercraftX-1.8-workspace-master/src/main/java/com/carrotsearch/hppc/SortedIterationLongObjectHashMap.java:420-422 | a new value iterator starts at position 0 |
| SortedIteration.ValuesIterator.Fetch | EaglercraftX-1.8-workspace-master/src/main/java/com/carrotsearch/hppc/SortedIterationLongObjectHashMap.java:424-433 | before the end, the slot and value at the current position, moving one on; at the end, done |
| SortedIteration.KeysContainer.constructor | EaglercraftX-1.8-workspace-master/src/main/java/com/carrotsearch/hppc/SortedIterationLongObjectHashMap.java:282-284 | the container's owner is the view |
| SortedIteration.KeysContainer.Contains | EaglercraftX-1.8-workspace-master/src/main/java/com/carrotsearch/hppc/SortedIterationLongObjectHashMap.java:286-289 | while unmodified, true exactly for the iterated keys |
| SortedIteration.KeysContainer.ForEachProcedure | EaglercraftX-1.8-workspace-master/src/main/java/com/carrotsearch/hppc/SortedIterationLongObjectHashMap.java:291-295 | the procedure's final state is its fold over the keys in iteration order |
| SortedIteration.KeysContainer.ForEachPredicate | EaglercraftX-1.8-workspace-master/src/main/java/com/carrotsearch/hppc/SortedIterationLongObjectHashMap.java:297-301 | the predicate's final state is that of the key traversal stopping right after the first rejected key |
| SortedIteration.KeysContainer.IsEmpty | EaglercraftX-1.8-workspace-master/src/main/java/com/carrotsearch/hppc/SortedIterationLongObjectHashMap.java:303-306 | while unmodified, true exactly when there are no keys to visit |
| SortedIteration.KeysContainer.Iterator | EaglercraftX-1.8-workspace-master/src/main/java/com/carrotsearch/hppc/SortedIterationLongObjectHashMap.java:308-311 | a fresh key iterator at position 0 |
| SortedIteration.KeysContainer.Size | EaglercraftX-1.8-workspace-master/src/main/java/com/carrotsearch/hppc/SortedIterationLongObjectHashMap.java:313-316 | under the size guard, the number of keys visited |
| SortedIteration.KeysContainer.Clear | EaglercraftX-1.8-workspace-master/src/main/java/com/carrotsearch/hppc/SortedIterationLongObjectHashMap.java:318-321 | rejected with a read-only violation |
| SortedIteration.KeysContainer.Release | EaglercraftX-1.8-workspace-master/src/main/java/com/carrotsearch/hppc/SortedIterationLongObjectHashMap.java:323-326 | rejected with a read-only violation |
| SortedIteration.KeysContainer.RemoveAllMatching | EaglercraftX-1.8-workspace-master/src/main/java/com/carrotsearch/hppc/SortedIterationLongObjectHashMap.java:328-331 | rejected with a read-only violation |
| SortedIteration.KeysContainer.RemoveAll | EaglercraftX-1.8-workspace-master/src/main/java/com/carrotsearch/hppc/SortedIterationLongObjectHashMap.java:333-336 | rejected with a read-only violation |
| SortedIteration.ValuesContainer.constructor | EaglercraftX-1.8-workspace-master/src/main/java/com/carrotsearch/hppc/SortedIterationLongObjectHashMap.java:357-359 | the container's owner is the view |
| SortedIteration.ValuesContainer.Size | EaglercraftX-1.8-workspace-master/src/main/java/com/carrotsearch/hppc/SortedIterationLongObjectHashMap.java:361-364 | under the size guard, the number of values visited |
| SortedIteration.ValuesContainer.IsEmpty | EaglercraftX-1.8-workspace-master/src/main/java/com/carrotsearch/hppc/SortedIterationLongObjectHashMap.java:366-369 | while unmodified, true exactly when there are no values to visit |
| SortedIteration.ValuesContainer.Contains | EaglercraftX-1.8-workspace-master/src/main/java/com/carrotsearch/hppc/SortedIterationLongObjectHashMap.java:371-379 | walking the entry iterator, true exactly when some iterated value equals the argument |
| SortedIteration.ValuesContainer.ForEachProcedure | EaglercraftX-1.8-workspace-master/src/main/java/com/carrotsearch/hppc/SortedIterationLongObjectHashMap.java:381-385 | the procedure's final state is its fold over the values in iteration order |
| SortedIteration.ValuesContainer.ForEachPredicate | EaglercraftX-1.8-workspace-master/src/main/java/com/carrotsearch/hppc/SortedIterationLongObjectHashMap.java:387-391 | the predicate's final state is that of the value traversal stopping right after the first rejected value |
| SortedIteration.ValuesContainer.Iterator | EaglercraftX-1.8-workspace-master/src/main/java/com/carrotsearch/hppc/SortedIterationLongObjectHashMap.java:393-396 | a fresh value iterator at position 0 |
| SortedIteration.ValuesContainer.RemoveAll | EaglercraftX-1.8-workspace-master/src/main/java/com/carrotsearch/hppc/SortedIterationLongObjectHashMap.java:398-401 | rejected with a read-only violation |
| SortedIteration.ValuesContainer.RemoveAllMatching | EaglercraftX-1.8-workspace-master/src/main/java/com/carrotsearch/hppc/SortedIterationLongObjectHashMap.java:403-406 | rejected with a read-only violation |
| SortedIteration.ValuesContainer.Clear | EaglercraftX-1.8-workspace-master/src/main/java/com/carrotsearch/hppc/SortedIterationLongObjectHashMap.java:408-411 | rejected with a read-only violation |
| SortedIteration.ValuesContainer.Release | EaglercraftX-1.8-workspace-master/src/main/java/com/carrotsearch/hppc/SortedIterationLongObjectHashMap.java:413-416 | rejected with a read-only violation |
| LongObjectHashMaps.EmptySlotExists | EaglercraftX-1.8-workspace-master/src/main/java/com/carrotsearch/hppc/SortedIterationLongObjectHashMap.java:206-209 | a table with fewer occupied keys than regular slots has a free slot (where `indexOf` reports an absent key could go) |
| LongObjectHashMaps.LongObjectHashMap.FindKey | EaglercraftX-1.8-workspace-master/src/main/java/com/carrotsearch/hppc/SortedIterationLongObjectHashMap.java:206-209 | the delegate's lookup scan: a regular slot holding the key, or -1 when none does |
| LongObjectHashMaps.LongObjectHashMap.FirstFree | EaglercraftX-1.8-workspace-master/src/main/java/com/carrotsearch/hppc/SortedIterationLongObjectHashMap.java:206-209 | a free regular slot at or after the start |
| LongObjectHashMaps.LongObjectHashMap.IndexOf | EaglercraftX-1.8-workspace-master/src/main/java/com/carrotsearch/hppc/SortedIterationLongObjectHashMap.java:206-209 | the delegate's `indexOf`: an occupied slot holding the key, or the complement of a free slot, the reserved one exactly for the key 0 |
| LongObjectHashMaps.LongObjectHashMap.IndexOfFindsSlot | EaglercraftX-1.8-workspace-master/src/main/java/com/carrotsearch/hppc/SortedIterationLongObjectHashMap.java:206-209 | `indexOf` of the key in an occupied slot is that slot |
| LongObjectHashMaps.LongObjectHashMap.ContainsKey | EaglercraftX-1.8-workspace-master/src/main/java/com/carrotsearch/hppc/SortedIterationLongObjectHashMap.java:105-108 | the delegate's `containsKey`: true exactly when some slot holding an entry holds the key |
| LongObjectHashMaps.LongObjectHashMap.Get | EaglercraftX-1.8-workspace-master/src/main/java/com/carrotsearch/hppc/SortedIterationLongObjectHashMap.java:176-179 | the delegate's `get`: a value exactly for contained keys, and then the value stored in the slot holding the key |
| LongObjectHashMaps.LongObjectHashMap.IndexExists | EaglercraftX-1.8-workspace-master/src/main/java/com/carrotsearch/hppc/SortedIterationLongObjectHashMap.java:211-214 | the delegate's `indexExists`, for an index `indexOf` returned: true exactly for a slot holding an entry |
| LongObjectHashMaps.LongObjectHashMap.IsEmptyIffNoEntries | EaglercraftX-1.8-workspace-master/src/main/java/com/carrotsearch/hppc/SortedIterationLongObjectHashMap.java:116-119 | the delegate's `isEmpty` is true exactly when no slot holds an entry |
| LongObjectHashMaps.CountNonZeroZero | EaglercraftX-1.8-workspace-master/src/main/java/com/carrotsearch/hppc/SortedIterationLongObjectHashMap.java:116-119 | a table counts zero occupied keys exactly when every regular key is 0 |
| EntrySlots.SizeCountsOccupiedSlots | EaglercraftX-1.8-workspace-master/src/main/java/com/carrotsearch/hppc/SortedIterationLongObjectHashMap.java:110-114 | the delegate's `size` is the number of slots holding an entry |
| EntrySlots.DistinctCardinality | EaglercraftX-1.8-workspace-master/src/main/java/com/carrotsearch/hppc/SortedIterationLongObjectHashMap.java:110-114 | a slot list without repetitions has as many distinct slots as elements |
| LongObjectHashMaps.LongObjectHashMap.GetOrDefault | EaglercraftX-1.8-workspace-master/src/main/java/com/carrotsearch/hppc/SortedIterationLongObjectHashMap.java:181-184 | the delegate's `getOrDefault`: the stored value when the key is present, the default otherwise |
| LongObjectHashMaps.LongObjectHashMap.IndexGet | EaglercraftX-1.8-workspace-master/src/main/java/com/carrotsearch/hppc/SortedIterationLongObjectHashMap.java:216-219 | the delegate's `indexGet`: the value `get` finds for the slot's key |

## Left out

- `LongObjectHashMap` is not part of this model beyond the state and reads the view relies on. Hashing, probing,
  insertion, removal, growth and the table's own invariants beyond those stated in `Valid` are left out. Lookups
  find a key's slot by scanning instead of probing.
- LongObjectHashMaps.LongObjectHashMap.IndexOf: for an absent non-zero key it returns the complement of the first free
  regular slot, not the free slot the table's probe sequence ends on, which depends on hashing.
- IndirectSort.Sort: `com.carrotsearch.hppc.sorting.QuickSort` is not part of this model. An insertion sort with the
  same contract stands in for it (an in-place permutation ordered by the comparator), so the iteration order among
  entries the comparator ties may differ from the real routine's.
- `visualizeKeyDistribution` is left out: it only formats a string about the delegate's hash layout.
- `AbstractIterator`'s `hasNext`/`next` protocol is left out; the iterators are modelled at their `fetch`, with
  `None` for `done()`.
- The iterators reuse one mutable cursor object for every element; the model hands out a fresh cursor value each time,
  so aliasing between successive cursors is not captured.
- Java `int` overflow is not modelled: slot numbers, sizes and positions are unbounded integers. The table never
  holds more than 2^31 slots, so nothing wraps.
- SortedIteration.SortedIterationLongObjectHashMap.ByKeys: the pairwise order is proved under totality and
  transitivity of the comparator on every key in the delegate's arrays, the 0 keys of free slots and of the reserved
  slot included. This asks less than Java's `Comparator` contract (for all values) and is enough for the sort. With a comparator that breaks these laws the real sort may throw or misorder; the
  model excludes such comparators by precondition.
- SortedIteration.SortedIterationLongObjectHashMap.ByKeysAndValues: the same, for the (key, value) comparator.
- SortedIteration.SortedIterationLongObjectHashMap.ForEachProcedure: `forEach` returns the procedure object, and the
  model returns its final state instead. A procedure is a state and a step function.
- SortedIteration.SortedIterationLongObjectHashMap.ForEachPredicate: the same, for predicate objects.
- SortedIteration.ValuesContainer.Contains uses Dafny equality where the source uses `Objects.equals`, so user-defined `equals` is
  not modelled.
- The source's `assert checkUnmodified()` runs only with Java assertions enabled. The model makes it a precondition
  (`CheckUnmodified`) of the operations that assert it. Properties that need the delegate truly unchanged are stated
  under `Unmodified`, the exact condition that the size comparison only approximates.
- Exceptions from a procedure, predicate or comparator are not modelled: they are total functions here.
- Concurrent modification of the delegate during a traversal is not modelled. Each traversal reads one delegate state.
