/** HPPC's `SortedIterationLongObjectHashMap`: a read-only view of a
    `LongObjectHashMap` that iterates its entries in the order of a
    caller-supplied comparator.

    Construction collects the delegate's occupied slot numbers
    (`createEntryIndexes`) and sorts that array by the comparator applied to
    the keys, or to the keys and values, stored in those slots
    (`sortIterationOrder`). Every traversal afterwards walks `iterationOrder`
    and reads `keys[slot]` and `values[slot]` from the delegate as they are at
    that moment. Lookups go straight to the delegate, and every write is
    rejected with a read-only failure. */
module SortedIteration {
  import opened LongTypes
  import opened Folds
  import opened LongObjectHashMaps
  import opened EntrySlots
  import IndirectSort

  /** `LongComparator`: orders two keys (negative, zero or positive). */
  type LongComparator = (i64, i64) -> int

  /** `LongObjectComparator`: orders two (key, value) pairs. */
  type LongObjectComparator<!V> = (i64, V, i64, V) -> int

  /** The cursors the three iterators hand out; `index` is the slot. */
  datatype LongObjectCursor<V> = LongObjectCursor(index: int, key: i64, value: V)
  datatype LongCursor = LongCursor(index: int, value: i64)
  datatype ObjectCursor<V> = ObjectCursor(index: int, value: V)

  /** The key/value comparator's view of the slots: `keys[slot]` paired with
      `values[slot]`. */
  function KeyValuePayload<V>(keys: seq<i64>, values: seq<V>): (p: seq<(i64, V)>)
    requires |keys| == |values|
    ensures |p| == |keys|
    ensures forall slot :: 0 <= slot < |p| ==> p[slot] == (keys[slot], values[slot])
  {
    seq(|keys|, slot requires 0 <= slot < |keys| => (keys[slot], values[slot]))
  }

  /** A key/value comparator, taking its two pairs as tuples. */
  function PairComparator<V>(comparator: LongObjectComparator<V>): ((i64, V), (i64, V)) -> int {
    (p: (i64, V), q: (i64, V)) => comparator(p.0, p.1, q.0, q.1)
  }

  /** A procedure over (key, value), applied to an entry cursor. */
  function EntryStep<V, S>(procedure: (S, i64, V) -> S): (S, LongObjectCursor<V>) -> S {
    (s: S, c: LongObjectCursor<V>) => procedure(s, c.key, c.value)
  }

  /** A predicate over (key, value), applied to an entry cursor. */
  function EntryTest<V, S>(test: (S, i64, V) -> (S, bool)): (S, LongObjectCursor<V>) -> (S, bool) {
    (s: S, c: LongObjectCursor<V>) => test(s, c.key, c.value)
  }

  // ---------------------------------------------------------------------------
  // The view
  // ---------------------------------------------------------------------------

  /** With a transitive comparator, an array of slots whose neighbours are in
      key order is in key order throughout. */
  lemma KeysInOrder(keys: array<i64>, order: array<int>, comparator: LongComparator)
    requires IndirectSort.Transitive(keys[..], comparator)
    requires IndirectSort.InBounds(order[..], keys.Length)
    requires IndirectSort.AdjacentSorted(order[..], keys[..], comparator)
    ensures forall i, j :: 0 <= i < j < order.Length ==> comparator(keys[order[i]], keys[order[j]]) <= 0
  {
    IndirectSort.AdjacentSortedIsSorted(order[..], keys[..], comparator);
    forall i, j | 0 <= i < j < order.Length
      ensures comparator(keys[order[i]], keys[order[j]]) <= 0
    {
      assert order[..][i] == order[i] && order[..][j] == order[j];
      assert comparator(keys[..][order[..][i]], keys[..][order[..][j]]) <= 0;
    }
  }

  /** The same for (key, value) order. */
  lemma KeyValuesInOrder<V>(keys: array<i64>, values: array<V>, order: array<int>, comparator: LongObjectComparator<V>)
    requires keys.Length == values.Length
    requires IndirectSort.Transitive(KeyValuePayload(keys[..], values[..]), PairComparator(comparator))
    requires IndirectSort.InBounds(order[..], keys.Length)
    requires IndirectSort.AdjacentSorted(order[..], KeyValuePayload(keys[..], values[..]), PairComparator(comparator))
    ensures forall i, j :: 0 <= i < j < order.Length ==>
      var a, b := order[i], order[j];
      comparator(keys[a], values[a], keys[b], values[b]) <= 0
  {
    var payload := KeyValuePayload(keys[..], values[..]);
    IndirectSort.AdjacentSortedIsSorted(order[..], payload, PairComparator(comparator));
    forall i, j | 0 <= i < j < order.Length
      ensures var a, b := order[i], order[j];
        comparator(keys[a], values[a], keys[b], values[b]) <= 0
    {
      assert order[..][i] == order[i] && order[..][j] == order[j];
      assert PairComparator(comparator)(payload[order[i]], payload[order[j]]) <= 0;
    }
  }

  class SortedIterationLongObjectHashMap<V(==)> {
    const delegate: LongObjectHashMap<V>
    const iterationOrder: array<int>

    /** What every read needs: a well-formed delegate, and slot numbers that
        index its arrays. */
    ghost predicate Valid()
      reads delegate, delegate.keys, iterationOrder
    {
      && delegate.Valid()
      && IndirectSort.InBounds(iterationOrder[..], delegate.mask + 2)
    }

    /** The delegate has not been changed structurally since the view was
        built: `iterationOrder` lists each occupied slot exactly once. */
    ghost predicate Unmodified()
      reads delegate, delegate.keys, iterationOrder
      requires delegate.Valid()
    {
      ListsEntries(delegate, iterationOrder[..])
    }

    /** `checkUnmodified()`: the cheap guard, comparing sizes only. It
        never fails while the delegate is unmodified. */
    function CheckUnmodified(): (r: bool)
      reads delegate, delegate.keys, iterationOrder
      ensures delegate.Valid() && Unmodified() ==> r
    {
      delegate.Size() == iterationOrder.Length
    }

    /** The entries in iteration order, read from the delegate now. */
    function OrderedEntries(): (es: seq<LongObjectCursor<V>>)
      reads delegate, delegate.keys, delegate.values, iterationOrder
      requires Valid()
      ensures |es| == iterationOrder.Length
      ensures forall i :: 0 <= i < |es| ==> es[i] == LongObjectCursor(iterationOrder[i],
        delegate.keys[iterationOrder[i]], delegate.values[iterationOrder[i]])
    {
      seq(iterationOrder.Length, i requires 0 <= i < iterationOrder.Length && Valid()
        reads delegate, delegate.keys, delegate.values, iterationOrder =>
        assert iterationOrder[..][i] == iterationOrder[i];
        LongObjectCursor(iterationOrder[i], delegate.keys[iterationOrder[i]], delegate.values[iterationOrder[i]]))
    }

    /** The keys in iteration order. */
    function OrderedKeys(): (ks: seq<i64>)
      reads delegate, delegate.keys, delegate.values, iterationOrder
      requires Valid()
      ensures |ks| == |OrderedEntries()|
      ensures forall i :: 0 <= i < |ks| ==> ks[i] == OrderedEntries()[i].key
    {
      seq(iterationOrder.Length, i requires 0 <= i < iterationOrder.Length && Valid()
        reads delegate, delegate.keys, delegate.values, iterationOrder => OrderedEntries()[i].key)
    }

    /** The values in iteration order. */
    function OrderedValues(): (vs: seq<V>)
      reads delegate, delegate.keys, delegate.values, iterationOrder
      requires Valid()
      ensures |vs| == |OrderedEntries()|
      ensures forall i :: 0 <= i < |vs| ==> vs[i] == OrderedEntries()[i].value
    {
      seq(iterationOrder.Length, i requires 0 <= i < iterationOrder.Length && Valid()
        reads delegate, delegate.keys, delegate.values, iterationOrder => OrderedEntries()[i].value)
    }

    /** The constructor taking a `LongComparator`: iteration visits every
        entry of the delegate once, keys in comparator order. The comparator
        laws are asked of every cell of `keys`, the 0 of free slots and of the
        reserved slot included, since the sort's payload is the whole array. */
    constructor ByKeys(delegate: LongObjectHashMap<V>, comparator: LongComparator)
      requires delegate.Valid()
      requires IndirectSort.Total(delegate.keys[..], comparator)
      requires IndirectSort.Transitive(delegate.keys[..], comparator)
      ensures this.delegate == delegate && fresh(iterationOrder)
      ensures Valid() && Unmodified() && CheckUnmodified()
      ensures forall i, j :: 0 <= i < j < iterationOrder.Length ==>
        comparator(delegate.keys[iterationOrder[i]], delegate.keys[iterationOrder[j]]) <= 0
    {
      this.delegate := delegate;
      var order := IterationOrderByKeys(delegate, comparator);
      KeysInOrder(delegate.keys, order, comparator);
      iterationOrder := order;
    }

    /** The constructor taking a `LongObjectComparator`: iteration visits
        every entry of the delegate once, (key, value) pairs in comparator
        order. */
    constructor ByKeysAndValues(delegate: LongObjectHashMap<V>, comparator: LongObjectComparator<V>)
      requires delegate.Valid()
      requires IndirectSort.Total(KeyValuePayload(delegate.keys[..], delegate.values[..]), PairComparator(comparator))
      requires IndirectSort.Transitive(KeyValuePayload(delegate.keys[..], delegate.values[..]), PairComparator(comparator))
      ensures this.delegate == delegate && fresh(iterationOrder)
      ensures Valid() && Unmodified() && CheckUnmodified()
      ensures forall i, j :: 0 <= i < j < iterationOrder.Length ==>
        var a, b := iterationOrder[i], iterationOrder[j];
        comparator(delegate.keys[a], delegate.values[a], delegate.keys[b], delegate.values[b]) <= 0
    {
      this.delegate := delegate;
      var order := IterationOrderByKeysAndValues(delegate, comparator);
      KeyValuesInOrder(delegate.keys, delegate.values, order, comparator);
      iterationOrder := order;
    }

    // -------------------------------------------------------------------------
    // What iteration visits, and how lookups agree with it
    // -------------------------------------------------------------------------

    /** While the delegate is unmodified, the keys iteration visits are exactly
        the keys the delegate contains. */
    lemma IteratedKeysAreContained()
      requires Valid()
      ensures Unmodified() ==> forall key :: key in OrderedKeys() <==> delegate.ContainsKey(key)
    {
      if Unmodified() {
        forall key ensures key in OrderedKeys() <==> delegate.ContainsKey(key) {
          if key in OrderedKeys() {
            var i :| 0 <= i < |OrderedKeys()| && OrderedKeys()[i] == key;
            delegate.IndexOfFindsSlot(iterationOrder[i]);
          }
          if delegate.ContainsKey(key) {
            var slot := delegate.IndexOf(key);
            assert slot in iterationOrder[..];
            var i :| 0 <= i < iterationOrder.Length && iterationOrder[..][i] == slot;
            assert OrderedKeys()[i] == key;
          }
        }
      }
    }

    /** While the delegate is unmodified, looking up a key that iteration
        visits finds the value iteration pairs it with. */
    lemma IteratedEntriesAreFound()
      requires Valid()
      ensures Unmodified() ==> forall i :: 0 <= i < |OrderedEntries()| ==>
        delegate.Get(OrderedEntries()[i].key) == Some(OrderedEntries()[i].value)
    {
      if Unmodified() {
        forall i | 0 <= i < |OrderedEntries()|
          ensures delegate.Get(OrderedEntries()[i].key) == Some(OrderedEntries()[i].value)
        {
          assert iterationOrder[..][i] == iterationOrder[i];
          delegate.IndexOfFindsSlot(iterationOrder[i]);
        }
      }
    }

    /** While the delegate is unmodified, iteration visits every occupied
        slot. */
    lemma OccupiedSlotIsIterated(slot: int)
      requires Valid() && delegate.Occupied(slot)
      ensures Unmodified() ==>
        exists i :: 0 <= i < |OrderedEntries()| &&
          OrderedEntries()[i] == LongObjectCursor(slot, delegate.keys[slot], delegate.values[slot])
    {
      if Unmodified() {
        assert slot in iterationOrder[..];
        var i :| 0 <= i < iterationOrder.Length && iterationOrder[..][i] == slot;
        assert OrderedEntries()[i] == LongObjectCursor(slot, delegate.keys[slot], delegate.values[slot]);
      }
    }

    /** While the delegate is unmodified, `iterationOrder` holds no slot twice,
        so iteration visits no key twice. */
    lemma IteratedKeysAreDistinct()
      requires Valid()
      ensures Unmodified() ==> forall i, j :: 0 <= i < j < |OrderedKeys()| ==> OrderedKeys()[i] != OrderedKeys()[j]
    {
      if Unmodified() {
        forall i, j | 0 <= i < j < |OrderedKeys()| ensures OrderedKeys()[i] != OrderedKeys()[j] {
          var a, b := iterationOrder[i], iterationOrder[j];
          assert iterationOrder[..][i] == a && iterationOrder[..][j] == b;
          if a <= delegate.mask && b <= delegate.mask {
            assert delegate.keys[a] != 0 && delegate.keys[b] != 0;
            if a > b {
              assert delegate.keys[b] != delegate.keys[a];
            }
          } else {
            assert a != b;
          }
        }
      }
    }

    // -------------------------------------------------------------------------
    // Reads
    // -------------------------------------------------------------------------

    /** `size()`: the delegate's size, which the guard equates with the number
        of slots iteration visits. */
    function Size(): (r: int)
      reads delegate, delegate.keys, iterationOrder
      requires CheckUnmodified()
      ensures r == iterationOrder.Length
    {
      delegate.Size()
    }

    /** `isEmpty()`: while the delegate is unmodified, true exactly when
        iteration visits nothing. */
    function IsEmpty(): (r: bool)
      reads delegate, delegate.keys, iterationOrder
      requires Valid()
      ensures Unmodified() ==> (r <==> iterationOrder.Length == 0)
    {
      delegate.IsEmpty()
    }

    /** `containsKey(key)`: while the delegate is unmodified, true exactly for
        the keys iteration visits. */
    function ContainsKey(key: i64): (r: bool)
      reads delegate, delegate.keys, delegate.values, iterationOrder
      requires Valid()
      ensures Unmodified() ==> (r <==> key in OrderedKeys())
    {
      IteratedKeysAreContained();
      delegate.ContainsKey(key)
    }

    /** `get(key)`: while the delegate is unmodified, the value iteration
        pairs with `key`, or `None` for a key iteration does not visit. */
    function Get(key: i64): (r: Option<V>)
      reads delegate, delegate.keys, delegate.values, iterationOrder
      requires Valid()
      ensures Unmodified() ==> (r.Some? <==> key in OrderedKeys())
      ensures Unmodified() ==> forall i :: 0 <= i < |OrderedEntries()| && OrderedEntries()[i].key == key ==>
        r == Some(OrderedEntries()[i].value)
    {
      IteratedKeysAreContained();
      IteratedEntriesAreFound();
      delegate.Get(key)
    }

    /** `getOrDefault(key, defaultValue)`: what `get` finds, or the default
        where it finds nothing. */
    function GetOrDefault(key: i64, defaultValue: V): (r: V)
      reads delegate, delegate.keys, delegate.values, iterationOrder
      requires Valid()
      ensures Get(key) == Some(r) || (Get(key) == None && r == defaultValue)
    {
      delegate.GetOrDefault(key, defaultValue)
    }

    /** `indexOf(key)`: while the delegate is unmodified, non-negative exactly
        for the keys iteration visits, and then the slot iteration reports for
        that key. */
    function IndexOf(key: i64): (r: int)
      reads delegate, delegate.keys, delegate.values, iterationOrder
      requires Valid()
      ensures Unmodified() ==> (0 <= r <==> key in OrderedKeys())
      ensures Unmodified() && 0 <= r ==>
        exists i :: 0 <= i < |OrderedEntries()| && OrderedEntries()[i].index == r && OrderedEntries()[i].key == key
    {
      IteratedKeysAreContained();
      var r := delegate.IndexOf(key);
      if 0 <= r then
        OccupiedSlotIsIterated(r);
        r
      else r
    }

    /** `indexExists(index)`, for an index `indexOf` returned: while the
        delegate is unmodified, true exactly for a slot iteration visits. */
    function IndexExists(index: int): (r: bool)
      reads delegate, delegate.keys, iterationOrder
      requires Valid()
      requires index < 0 || delegate.Occupied(index)
      ensures Unmodified() ==> (r <==> index in iterationOrder[..])
    {
      delegate.IndexExists(index)
    }

    /** `indexGet(index)`, for the slot of an entry: the value `get` finds
        for the key in that slot, and, while the delegate is unmodified, the
        value iteration reports for that slot. */
    function IndexGet(index: int): (r: V)
      reads delegate, delegate.keys, delegate.values, iterationOrder
      requires Valid()
      requires delegate.Occupied(index)
      ensures 0 <= index < delegate.keys.Length && Get(delegate.keys[index]) == Some(r)
      ensures Unmodified() ==>
        exists i :: 0 <= i < |OrderedEntries()| && OrderedEntries()[i] == LongObjectCursor(index, delegate.keys[index], r)
    {
      OccupiedSlotIsIterated(index);
      delegate.IndexGet(index)
    }

    // -------------------------------------------------------------------------
    // Traversals
    // -------------------------------------------------------------------------

    /** `iterator()`: a fresh entry iterator at the start of the order. */
    method Iterator() returns (it: EntryIterator<V>)
      requires Valid() && CheckUnmodified()
      ensures fresh(it) && it.owner == this && it.index == 0 && it.Valid()
    {
      it := new EntryIterator(this);
    }

    /** `keys()`: the keys container over this view. */
    method Keys() returns (c: KeysContainer<V>)
      requires Valid() && CheckUnmodified()
      ensures fresh(c) && c.owner == this
    {
      c := new KeysContainer(this);
    }

    /** `values()`: the values container over this view. */
    method Values() returns (c: ValuesContainer<V>)
      requires Valid() && CheckUnmodified()
      ensures fresh(c) && c.owner == this
    {
      c := new ValuesContainer(this);
    }

    /** `forEach(LongObjectProcedure)`: applies the procedure to every entry,
        in iteration order, and ends in the state the procedure leaves. */
    method ForEachProcedure<S>(procedure: (S, i64, V) -> S, s0: S) returns (s: S)
      requires Valid() && CheckUnmodified()
      ensures s == Fold(OrderedEntries(), EntryStep(procedure), s0)
    {
      var keys, values := delegate.keys, delegate.values;
      var size := Size();
      ghost var entries := OrderedEntries();
      s := s0;
      var i := 0;
      while i < size
        invariant 0 <= i <= size
        invariant s == Fold(entries[..i], EntryStep(procedure), s0)
      {
        var slot := iterationOrder[i];
        FoldSnoc(entries, i, EntryStep(procedure), s0);
        s := procedure(s, keys[slot], values[slot]);
        i := i + 1;
      }
      assert entries[..size] == entries;
    }

    /** `forEach(LongObjectPredicate)`: applies the predicate to the entries in
        iteration order and stops right after the first one it rejects. */
    method ForEachPredicate<S>(test: (S, i64, V) -> (S, bool), s0: S) returns (s: S)
      requires Valid() && CheckUnmodified()
      ensures s == RunWhile(OrderedEntries(), 0, EntryTest(test), s0).0
    {
      var keys, values := delegate.keys, delegate.values;
      var size := Size();
      ghost var entries := OrderedEntries();
      s := s0;
      var i := 0;
      while i < size
        invariant 0 <= i <= size
        invariant RunWhile(entries, 0, EntryTest(test), s0) == RunWhile(entries, i, EntryTest(test), s)
      {
        var slot := iterationOrder[i];
        var next := test(s, keys[slot], values[slot]);
        assert EntryTest(test)(s, entries[i]) == next;
        s := next.0;
        if !next.1 {
          return;
        }
        i := i + 1;
      }
    }

    // -------------------------------------------------------------------------
    // Writes: all rejected. None of these methods may modify anything, so
    // the delegate and `iterationOrder` are left as they were.
    // -------------------------------------------------------------------------

    /** `put(key, value)`. */
    method Put(key: i64, value: V) returns (r: Result<V>)
      ensures r == Err(ReadOnlyViolation)
    {
      r := Err(ReadOnlyViolation);
    }

    /** `putAll(LongObjectAssociativeContainer)`. */
    method PutAllFrom(container: seq<(i64, V)>) returns (r: Result<int>)
      ensures r == Err(ReadOnlyViolation)
    {
      r := Err(ReadOnlyViolation);
    }

    /** `putAll(Iterable<LongObjectCursor>)`. */
    method PutAll(iterable: seq<LongObjectCursor<V>>) returns (r: Result<int>)
      ensures r == Err(ReadOnlyViolation)
    {
      r := Err(ReadOnlyViolation);
    }

    /** `remove(key)`. */
    method Remove(key: i64) returns (r: Result<V>)
      ensures r == Err(ReadOnlyViolation)
    {
      r := Err(ReadOnlyViolation);
    }

    /** `removeAll(LongContainer)`. */
    method RemoveAllKeys(container: seq<i64>) returns (r: Result<int>)
      ensures r == Err(ReadOnlyViolation)
    {
      r := Err(ReadOnlyViolation);
    }

    /** `removeAll(LongPredicate)`. */
    method RemoveAllKeysMatching(test: i64 -> bool) returns (r: Result<int>)
      ensures r == Err(ReadOnlyViolation)
    {
      r := Err(ReadOnlyViolation);
    }

    /** `removeAll(LongObjectPredicate)`. */
    method RemoveAllMatching(test: (i64, V) -> bool) returns (r: Result<int>)
      ensures r == Err(ReadOnlyViolation)
    {
      r := Err(ReadOnlyViolation);
    }

    /** `indexReplace(index, newValue)`. */
    method IndexReplace(index: int, newValue: V) returns (r: Result<V>)
      ensures r == Err(ReadOnlyViolation)
    {
      r := Err(ReadOnlyViolation);
    }

    /** `indexInsert(index, key, value)`. */
    method IndexInsert(index: int, key: i64, value: V) returns (r: Result<Unit>)
      ensures r == Err(ReadOnlyViolation)
    {
      r := Err(ReadOnlyViolation);
    }

    /** `indexRemove(index)`. */
    method IndexRemove(index: int) returns (r: Result<V>)
      ensures r == Err(ReadOnlyViolation)
    {
      r := Err(ReadOnlyViolation);
    }

    /** `clear()`. */
    method Clear() returns (r: Result<Unit>)
      ensures r == Err(ReadOnlyViolation)
    {
      r := Err(ReadOnlyViolation);
    }

    /** `release()`. */
    method Release() returns (r: Result<Unit>)
      ensures r == Err(ReadOnlyViolation)
    {
      r := Err(ReadOnlyViolation);
    }

    /** What the first constructor computes: the entry indexes, sorted by key. */
    static method IterationOrderByKeys(delegate: LongObjectHashMap<V>, comparator: LongComparator)
      returns (order: array<int>)
      requires delegate.Valid()
      requires IndirectSort.Total(delegate.keys[..], comparator)
      ensures fresh(order)
      ensures ListsEntries(delegate, order[..])
      ensures IndirectSort.InBounds(order[..], delegate.mask + 2)
      ensures order.Length == delegate.Size()
      ensures IndirectSort.AdjacentSorted(order[..], delegate.keys[..], comparator)
    {
      ghost var keys, values := delegate.keys[..], delegate.values[..];
      var entryIndexes := CreateEntryIndexes(delegate);
      ghost var listed := entryIndexes[..];
      assert delegate.keys[..] == keys && delegate.values[..] == values;
      order := SortIterationOrderByKeys(delegate, entryIndexes, comparator);
      PermutationListsEntries(delegate, order[..], listed);
    }

    /** What the second constructor computes: the entry indexes, sorted by
        (key, value). */
    static method IterationOrderByKeysAndValues(delegate: LongObjectHashMap<V>, comparator: LongObjectComparator<V>)
      returns (order: array<int>)
      requires delegate.Valid()
      requires IndirectSort.Total(KeyValuePayload(delegate.keys[..], delegate.values[..]), PairComparator(comparator))
      ensures fresh(order)
      ensures ListsEntries(delegate, order[..])
      ensures IndirectSort.InBounds(order[..], delegate.mask + 2)
      ensures order.Length == delegate.Size()
      ensures IndirectSort.AdjacentSorted(order[..], KeyValuePayload(delegate.keys[..], delegate.values[..]), PairComparator(comparator))
    {
      ghost var keys, values := delegate.keys[..], delegate.values[..];
      var entryIndexes := CreateEntryIndexes(delegate);
      ghost var listed := entryIndexes[..];
      assert delegate.keys[..] == keys && delegate.values[..] == values;
      order := SortIterationOrderByKeysAndValues(delegate, entryIndexes, comparator);
      PermutationListsEntries(delegate, order[..], listed);
    }

    /** `createEntryIndexes()`: the occupied slots of the delegate, the
        reserved one first. */
    static method CreateEntryIndexes(delegate: LongObjectHashMap<V>) returns (entryIndexes: array<int>)
      requires delegate.Valid()
      ensures fresh(entryIndexes)
      ensures entryIndexes[..] == EntryIndexes(delegate)
      ensures ListsEntries(delegate, entryIndexes[..])
      ensures IndirectSort.InBounds(entryIndexes[..], delegate.mask + 2)
    {
      EntryIndexesInBounds(delegate);
      EntryIndexesListEntries(delegate);
      RegularSlotsCount(delegate.keys[..delegate.mask + 1]);
      entryIndexes := ScanSlots(delegate.keys, delegate.mask, delegate.hasEmptyKey, delegate.Size());
    }

    /** The first `sortIterationOrder`: sorts the slot numbers in place, by the
        keys in those slots, and returns the same array. */
    static method SortIterationOrderByKeys(delegate: LongObjectHashMap<V>, entryIndexes: array<int>,
                                           comparator: LongComparator) returns (r: array<int>)
      requires IndirectSort.InBounds(entryIndexes[..], delegate.keys.Length)
      requires IndirectSort.Total(delegate.keys[..], comparator)
      modifies entryIndexes
      ensures r == entryIndexes
      ensures multiset(r[..]) == old(multiset(entryIndexes[..]))
      ensures IndirectSort.InBounds(r[..], delegate.keys.Length)
      ensures IndirectSort.AdjacentSorted(r[..], delegate.keys[..], comparator)
    {
      var payload := delegate.keys[..];
      IndirectSort.Sort(entryIndexes, payload, comparator);
      r := entryIndexes;
    }

    /** The second `sortIterationOrder`: sorts the slot numbers in place, by
        the (key, value) pairs in those slots, and returns the same array. */
    static method SortIterationOrderByKeysAndValues(delegate: LongObjectHashMap<V>, entryIndexes: array<int>,
                                                    comparator: LongObjectComparator<V>) returns (r: array<int>)
      requires delegate.keys.Length == delegate.values.Length
      requires IndirectSort.InBounds(entryIndexes[..], delegate.keys.Length)
      requires IndirectSort.Total(KeyValuePayload(delegate.keys[..], delegate.values[..]), PairComparator(comparator))
      requires entryIndexes as object != delegate.values as object
      modifies entryIndexes
      ensures r == entryIndexes
      ensures multiset(r[..]) == old(multiset(entryIndexes[..]))
      ensures IndirectSort.InBounds(r[..], delegate.keys.Length)
      ensures IndirectSort.AdjacentSorted(r[..], KeyValuePayload(delegate.keys[..], delegate.values[..]), PairComparator(comparator))
    {
      var payload := KeyValuePayload(delegate.keys[..], delegate.values[..]);
      IndirectSort.Sort(entryIndexes, payload, PairComparator(comparator));
      r := entryIndexes;
      assert payload == KeyValuePayload(delegate.keys[..], delegate.values[..]);
    }
  }

  // ---------------------------------------------------------------------------
  // Iterators
  // ---------------------------------------------------------------------------

  /** `EntryIterator`: walks `iterationOrder` with a position counter and
      reads each slot's key and value from the delegate when it gets there. */
  class EntryIterator<V(==)> {
    const owner: SortedIterationLongObjectHashMap<V>
    var index: int

    ghost predicate Valid()
      reads this, owner.delegate, owner.delegate.keys, owner.iterationOrder
    {
      owner.Valid() && 0 <= index <= owner.iterationOrder.Length
    }

    constructor(owner: SortedIterationLongObjectHashMap<V>)
      requires owner.Valid()
      ensures this.owner == owner && index == 0 && Valid()
    {
      this.owner := owner;
      index := 0;
    }

    /** `fetch()`: the entry at the current position, moving one position on,
        or `None` ("done") once every position has been visited. */
    method Fetch() returns (r: Option<LongObjectCursor<V>>)
      requires Valid()
      modifies this
      ensures Valid()
      ensures old(index) < owner.iterationOrder.Length ==>
        index == old(index) + 1 && r == Some(owner.OrderedEntries()[old(index)])
      ensures old(index) == owner.iterationOrder.Length ==> index == old(index) && r == None
    {
      if index < owner.iterationOrder.Length {
        var slot := owner.iterationOrder[index];
        index := index + 1;
        r := Some(LongObjectCursor(slot, owner.delegate.keys[slot], owner.delegate.values[slot]));
      } else {
        r := None;
      }
    }
  }

  /** `KeysIterator`: the same walk, handing out keys. */
  class KeysIterator<V(==)> {
    const owner: SortedIterationLongObjectHashMap<V>
    var index: int

    ghost predicate Valid()
      reads this, owner.delegate, owner.delegate.keys, owner.iterationOrder
    {
      owner.Valid() && 0 <= index <= owner.iterationOrder.Length
    }

    constructor(owner: SortedIterationLongObjectHashMap<V>)
      requires owner.Valid()
      ensures this.owner == owner && index == 0 && Valid()
    {
      this.owner := owner;
      index := 0;
    }

    /** `fetch()`: the key at the current position and its slot, moving one
        position on, or `None` once every position has been visited. */
    method Fetch() returns (r: Option<LongCursor>)
      requires Valid()
      modifies this
      ensures Valid()
      ensures old(index) < owner.iterationOrder.Length ==>
        index == old(index) + 1 && r == Some(LongCursor(owner.iterationOrder[old(index)], owner.OrderedKeys()[old(index)]))
      ensures old(index) == owner.iterationOrder.Length ==> index == old(index) && r == None
    {
      if index < owner.iterationOrder.Length {
        var slot := owner.iterationOrder[index];
        index := index + 1;
        r := Some(LongCursor(slot, owner.delegate.keys[slot]));
      } else {
        r := None;
      }
    }
  }

  /** `ValuesIterator`: the same walk, handing out values. */
  class ValuesIterator<V(==)> {
    const owner: SortedIterationLongObjectHashMap<V>
    var index: int

    ghost predicate Valid()
      reads this, owner.delegate, owner.delegate.keys, owner.iterationOrder
    {
      owner.Valid() && 0 <= index <= owner.iterationOrder.Length
    }

    constructor(owner: SortedIterationLongObjectHashMap<V>)
      requires owner.Valid()
      ensures this.owner == owner && index == 0 && Valid()
    {
      this.owner := owner;
      index := 0;
    }

    /** `fetch()`: the value at the current position and its slot, moving one
        position on, or `None` once every position has been visited. */
    method Fetch() returns (r: Option<ObjectCursor<V>>)
      requires Valid()
      modifies this
      ensures Valid()
      ensures old(index) < owner.iterationOrder.Length ==>
        index == old(index) + 1 && r == Some(ObjectCursor(owner.iterationOrder[old(index)], owner.OrderedValues()[old(index)]))
      ensures old(index) == owner.iterationOrder.Length ==> index == old(index) && r == None
    {
      if index < owner.iterationOrder.Length {
        var slot := owner.iterationOrder[index];
        index := index + 1;
        r := Some(ObjectCursor(slot, owner.delegate.values[slot]));
      } else {
        r := None;
      }
    }
  }

  // ---------------------------------------------------------------------------
  // The key and value containers
  // ---------------------------------------------------------------------------

  /** `KeysContainer`: the view's keys, in iteration order. */
  class KeysContainer<V(==)> {
    const owner: SortedIterationLongObjectHashMap<V>

    constructor(owner: SortedIterationLongObjectHashMap<V>)
      ensures this.owner == owner
    {
      this.owner := owner;
    }

    /** `contains(e)`: while the delegate is unmodified, true exactly for the
        keys iteration visits. */
    function Contains(e: i64): (r: bool)
      reads owner.delegate, owner.delegate.keys, owner.delegate.values, owner.iterationOrder
      requires owner.Valid()
      ensures owner.Unmodified() ==> (r <==> e in owner.OrderedKeys())
    {
      owner.ContainsKey(e)
    }

    /** `forEach(LongProcedure)`: the procedure applied to every key, in
        iteration order. */
    method ForEachProcedure<S>(procedure: (S, i64) -> S, s0: S) returns (s: S)
      requires owner.Valid() && owner.CheckUnmodified()
      ensures s == Fold(owner.OrderedKeys(), procedure, s0)
    {
      var adapter := (t: S, k: i64, v: V) => procedure(t, k);
      s := owner.ForEachProcedure(adapter, s0);
      FoldCorrespondence(owner.OrderedEntries(), owner.OrderedKeys(), EntryStep(adapter), procedure, s0);
    }

    /** `forEach(LongPredicate)`: the predicate applied to the keys in
        iteration order, stopping right after the first one it rejects. */
    method ForEachPredicate<S>(test: (S, i64) -> (S, bool), s0: S) returns (s: S)
      requires owner.Valid() && owner.CheckUnmodified()
      ensures s == RunWhile(owner.OrderedKeys(), 0, test, s0).0
    {
      var adapter := (t: S, k: i64, v: V) => test(t, k);
      s := owner.ForEachPredicate(adapter, s0);
      RunWhileCorrespondence(owner.OrderedEntries(), owner.OrderedKeys(), 0, EntryTest(adapter), test, s0);
    }

    /** `isEmpty()`: while the delegate is unmodified, true exactly when there
        are no keys to visit. */
    function IsEmpty(): (r: bool)
      reads owner.delegate, owner.delegate.keys, owner.delegate.values, owner.iterationOrder
      requires owner.Valid()
      ensures owner.Unmodified() ==> (r <==> owner.OrderedKeys() == [])
    {
      owner.IsEmpty()
    }

    /** `size()`: the number of keys iteration visits. */
    function Size(): (r: int)
      reads owner.delegate, owner.delegate.keys, owner.delegate.values, owner.iterationOrder
      requires owner.Valid() && owner.CheckUnmodified()
      ensures r == |owner.OrderedKeys()|
    {
      owner.Size()
    }

    /** `iterator()`: a fresh key iterator at the start of the order. */
    method Iterator() returns (it: KeysIterator<V>)
      requires owner.Valid()
      ensures fresh(it) && it.owner == owner && it.index == 0 && it.Valid()
    {
      it := new KeysIterator(owner);
    }

    /** `clear()`. */
    method Clear() returns (r: Result<Unit>)
      ensures r == Err(ReadOnlyViolation)
    {
      r := Err(ReadOnlyViolation);
    }

    /** `release()`. */
    method Release() returns (r: Result<Unit>)
      ensures r == Err(ReadOnlyViolation)
    {
      r := Err(ReadOnlyViolation);
    }

    /** `removeAll(LongPredicate)`. */
    method RemoveAllMatching(test: i64 -> bool) returns (r: Result<int>)
      ensures r == Err(ReadOnlyViolation)
    {
      r := Err(ReadOnlyViolation);
    }

    /** `removeAll(long)`. */
    method RemoveAll(e: i64) returns (r: Result<int>)
      ensures r == Err(ReadOnlyViolation)
    {
      r := Err(ReadOnlyViolation);
    }
  }

  /** `ValuesContainer`: the view's values, in iteration order. */
  class ValuesContainer<V(==)> {
    const owner: SortedIterationLongObjectHashMap<V>

    constructor(owner: SortedIterationLongObjectHashMap<V>)
      ensures this.owner == owner
    {
      this.owner := owner;
    }

    /** `size()`: the number of values iteration visits. */
    function Size(): (r: int)
      reads owner.delegate, owner.delegate.keys, owner.delegate.values, owner.iterationOrder
      requires owner.Valid() && owner.CheckUnmodified()
      ensures r == |owner.OrderedValues()|
    {
      owner.Size()
    }

    /** `isEmpty()`: while the delegate is unmodified, true exactly when there
        are no values to visit. */
    function IsEmpty(): (r: bool)
      reads owner.delegate, owner.delegate.keys, owner.delegate.values, owner.iterationOrder
      requires owner.Valid()
      ensures owner.Unmodified() ==> (r <==> owner.OrderedValues() == [])
    {
      owner.IsEmpty()
    }

    /** `contains(value)`: walks the view's entry iterator and answers whether
        some entry holds `value`. */
    method Contains(value: V) returns (found: bool)
      requires owner.Valid() && owner.CheckUnmodified()
      ensures found <==> value in owner.OrderedValues()
    {
      var it := owner.Iterator();
      while true
        invariant fresh(it) && it.owner == owner && it.Valid()
        invariant forall k :: 0 <= k < it.index ==> owner.OrderedValues()[k] != value
        decreases owner.iterationOrder.Length - it.index
      {
        var c := it.Fetch();
        match c {
          case None =>
            return false;
          case Some(cursor) =>
            if cursor.value == value {
              return true;
            }
        }
      }
    }

    /** `forEach(ObjectProcedure)`: the procedure applied to every value, in
        iteration order. */
    method ForEachProcedure<S>(procedure: (S, V) -> S, s0: S) returns (s: S)
      requires owner.Valid() && owner.CheckUnmodified()
      ensures s == Fold(owner.OrderedValues(), procedure, s0)
    {
      var adapter := (t: S, k: i64, v: V) => procedure(t, v);
      s := owner.ForEachProcedure(adapter, s0);
      FoldCorrespondence(owner.OrderedEntries(), owner.OrderedValues(), EntryStep(adapter), procedure, s0);
    }

    /** `forEach(ObjectPredicate)`: the predicate applied to the values in
        iteration order, stopping right after the first one it rejects. */
    method ForEachPredicate<S>(test: (S, V) -> (S, bool), s0: S) returns (s: S)
      requires owner.Valid() && owner.CheckUnmodified()
      ensures s == RunWhile(owner.OrderedValues(), 0, test, s0).0
    {
      var adapter := (t: S, k: i64, v: V) => test(t, v);
      s := owner.ForEachPredicate(adapter, s0);
      RunWhileCorrespondence(owner.OrderedEntries(), owner.OrderedValues(), 0, EntryTest(adapter), test, s0);
    }

    /** `iterator()`: a fresh value iterator at the start of the order. */
    method Iterator() returns (it: ValuesIterator<V>)
      requires owner.Valid()
      ensures fresh(it) && it.owner == owner && it.index == 0 && it.Valid()
    {
      it := new ValuesIterator(owner);
    }

    /** `removeAll(VType)`. */
    method RemoveAll(e: V) returns (r: Result<int>)
      ensures r == Err(ReadOnlyViolation)
    {
      r := Err(ReadOnlyViolation);
    }

    /** `removeAll(ObjectPredicate)`. */
    method RemoveAllMatching(test: V -> bool) returns (r: Result<int>)
      ensures r == Err(ReadOnlyViolation)
    {
      r := Err(ReadOnlyViolation);
    }

    /** `clear()`. */
    method Clear() returns (r: Result<Unit>)
      ensures r == Err(ReadOnlyViolation)
    {
      r := Err(ReadOnlyViolation);
    }

    /** `release()`. */
    method Release() returns (r: Result<Unit>)
      ensures r == Err(ReadOnlyViolation)
    {
      r := Err(ReadOnlyViolation);
    }
  }
}
