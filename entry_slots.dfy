/** The slot numbers a sorted view iterates over: which slots of a
    `LongObjectHashMap` hold entries, in the order `createEntryIndexes()` lists
    them, and the scan that lists them. */
module EntrySlots {
  import opened LongTypes
  import opened LongObjectHashMaps
  import IndirectSort

  /** The positions of `s` that hold a non-zero key, in ascending order. */
  function RegularSlots(s: seq<i64>): seq<int>
    decreases |s|
  {
    if s == [] then [] else RegularSlots(s[..|s| - 1]) + (if s[|s| - 1] != 0 then [|s| - 1] else [])
  }

  lemma {:induction false} RegularSlotsCount(s: seq<i64>)
    ensures |RegularSlots(s)| == CountNonZero(s)
    decreases |s|
  {
    if s != [] {
      RegularSlotsCount(s[..|s| - 1]);
    }
  }

  lemma {:induction false} RegularSlotsMembers(s: seq<i64>)
    ensures forall x :: x in RegularSlots(s) <==> 0 <= x < |s| && s[x] != 0
    decreases |s|
  {
    if s != [] {
      var t := s[..|s| - 1];
      RegularSlotsMembers(t);
      assert forall x :: 0 <= x < |t| ==> t[x] == s[x];
    }
  }

  lemma {:induction false} RegularSlotsIncreasing(s: seq<i64>)
    ensures forall a, b :: 0 <= a < b < |RegularSlots(s)| ==> RegularSlots(s)[a] < RegularSlots(s)[b]
    decreases |s|
  {
    if s != [] {
      var t := s[..|s| - 1];
      RegularSlotsIncreasing(t);
      RegularSlotsMembers(t);
      var r := RegularSlots(t);
      forall a | 0 <= a < |r| ensures r[a] < |t| {
        assert r[a] in r;
      }
    }
  }

  /** Extending a prefix by one slot extends its slot list and its count by
      that slot if it is occupied. */
  lemma {:induction false} PrefixSnoc(s: seq<i64>, k: nat)
    requires k < |s|
    ensures RegularSlots(s[..k + 1]) == RegularSlots(s[..k]) + (if s[k] != 0 then [k] else [])
    ensures CountNonZero(s[..k + 1]) == CountNonZero(s[..k]) + (if s[k] != 0 then 1 else 0)
  {
    assert s[..k + 1][..k] == s[..k];
  }

  /** A prefix holds no more occupied keys than the whole. */
  lemma {:induction false} CountPrefix(s: seq<i64>, k: nat)
    requires k <= |s|
    ensures CountNonZero(s[..k]) <= CountNonZero(s)
    ensures k == |s| ==> CountNonZero(s[..k]) == CountNonZero(s)
    decreases |s|
  {
    if k < |s| {
      var t := s[..|s| - 1];
      assert t[..k] == s[..k];
      CountPrefix(t, k);
    } else {
      assert s[..k] == s;
    }
  }

  /** Once a prefix holds every occupied key, it lists every occupied slot:
      this is why the scan may stop as soon as it has counted `size` entries. */
  lemma {:induction false} RegularSlotsSaturated(s: seq<i64>, k: nat)
    requires k <= |s| && CountNonZero(s[..k]) == CountNonZero(s)
    ensures RegularSlots(s[..k]) == RegularSlots(s)
    decreases |s|
  {
    if k < |s| {
      var t := s[..|s| - 1];
      assert t[..k] == s[..k];
      CountPrefix(t, k);
      RegularSlotsSaturated(t, k);
    } else {
      assert s[..k] == s;
    }
  }

  /** The array `createEntryIndexes` builds: the reserved slot first if the key
      0 is present, then the occupied regular slots in ascending order. */
  function EntryIndexes<V>(d: LongObjectHashMap<V>): seq<int>
    reads d, d.keys
    requires 0 <= d.mask && d.keys.Length == d.mask + 2
  {
    (if d.hasEmptyKey then [d.mask + 1] else []) + RegularSlots(d.keys[..d.mask + 1])
  }

  /** There are exactly `size()` entry indexes. */
  lemma EntryIndexesLength<V>(d: LongObjectHashMap<V>)
    requires d.Valid()
    ensures |EntryIndexes(d)| == d.Size()
  {
    RegularSlotsCount(d.keys[..d.mask + 1]);
  }

  /** The entry indexes are exactly the occupied slots. */
  lemma EntryIndexesExact<V>(d: LongObjectHashMap<V>)
    requires d.Valid()
    ensures forall slot :: slot in EntryIndexes(d) <==> 0 <= slot <= d.mask + 1 && d.Occupied(slot)
  {
    RegularSlotsMembers(d.keys[..d.mask + 1]);
  }

  /** The reserved slot comes first when present, the regular slots follow in
      strictly ascending order, and so no slot is listed twice. */
  lemma EntryIndexesOrder<V>(d: LongObjectHashMap<V>)
    requires d.Valid()
    ensures d.hasEmptyKey ==> EntryIndexes(d)[0] == d.mask + 1
    ensures var first := if d.hasEmptyKey then 1 else 0;
      forall a, b :: first <= a < b < |EntryIndexes(d)| ==> EntryIndexes(d)[a] < EntryIndexes(d)[b]
    ensures forall a, b :: 0 <= a < b < |EntryIndexes(d)| ==> EntryIndexes(d)[a] != EntryIndexes(d)[b]
  {
    var s := d.keys[..d.mask + 1];
    RegularSlotsIncreasing(s);
    RegularSlotsMembers(s);
    var e := EntryIndexes(d);
    if d.hasEmptyKey {
      assert forall a :: 1 <= a < |e| ==> e[a] == RegularSlots(s)[a - 1];
      assert forall a :: 1 <= a < |e| ==> e[a] in RegularSlots(s);
    }
  }

  /** Every entry index designates a slot of the delegate's arrays. */
  lemma EntryIndexesInBounds<V>(d: LongObjectHashMap<V>)
    requires d.Valid()
    ensures IndirectSort.InBounds(EntryIndexes(d), d.mask + 2)
  {
    EntryIndexesExact(d);
    assert forall i :: 0 <= i < |EntryIndexes(d)| ==> EntryIndexes(d)[i] in EntryIndexes(d);
  }

  /** `order` lists every entry of `d` exactly once: `size()` slots, each of
      them occupied, every occupied slot among them, none of them twice. */
  ghost predicate ListsEntries<V>(d: LongObjectHashMap<V>, order: seq<int>)
    reads d, d.keys
    requires d.Valid()
  {
    && |order| == d.Size()
    && (forall i :: 0 <= i < |order| ==> 0 <= order[i] <= d.mask + 1 && d.Occupied(order[i]))
    && (forall slot :: 0 <= slot <= d.mask + 1 && d.Occupied(slot) ==> slot in order)
    && (forall i, j :: 0 <= i < j < |order| ==> order[i] != order[j])
  }

  /** The entry indexes list every entry exactly once. */
  lemma EntryIndexesListEntries<V>(d: LongObjectHashMap<V>)
    requires d.Valid()
    ensures ListsEntries(d, EntryIndexes(d))
  {
    EntryIndexesExact(d);
    EntryIndexesOrder(d);
    EntryIndexesLength(d);
    assert forall i :: 0 <= i < |EntryIndexes(d)| ==> EntryIndexes(d)[i] in EntryIndexes(d);
  }

  /** A sequence without repetitions has as many distinct elements as
      positions. */
  lemma {:induction false} DistinctCardinality(s: seq<int>)
    requires forall i, j :: 0 <= i < j < |s| ==> s[i] != s[j]
    ensures |set x | x in s| == |s|
    decreases |s|
  {
    if s != [] {
      var t := s[..|s| - 1];
      var last := s[|s| - 1];
      DistinctCardinality(t);
      forall x | x in t ensures x != last {
        var k :| 0 <= k < |t| && t[k] == x;
        assert s[k] == x;
      }
      assert (set x | x in s) == (set x | x in t) + {last};
    }
  }

  /** The delegate's `size()` is the number of slots that hold an entry. */
  lemma SizeCountsOccupiedSlots<V>(d: LongObjectHashMap<V>)
    requires d.Valid()
    ensures d.Size() == |set slot | 0 <= slot <= d.mask + 1 && d.Occupied(slot)|
  {
    EntryIndexesListEntries(d);
    var e := EntryIndexes(d);
    DistinctCardinality(e);
    assert (set x | x in e) == (set slot | 0 <= slot <= d.mask + 1 && d.Occupied(slot));
  }

  /** Any rearrangement of such a list is one too. */
  lemma PermutationListsEntries<V>(d: LongObjectHashMap<V>, s: seq<int>, t: seq<int>)
    requires d.Valid() && ListsEntries(d, t)
    requires multiset(s) == multiset(t)
    ensures ListsEntries(d, s)
  {
    assert IndirectSort.InBounds(t, d.mask + 2) by {
      forall i | 0 <= i < |t| ensures 0 <= t[i] < d.mask + 2 {
      }
    }
    PermutationKeepsSlots(s, t, d.mask + 2);
    forall i | 0 <= i < |s| ensures 0 <= s[i] <= d.mask + 1 && d.Occupied(s[i]) {
      assert s[i] in s;
      var k :| 0 <= k < |t| && t[k] == s[i];
    }
  }

  /** Elements of a multiset-equal sequence inherit bounds and distinctness. */
  lemma PermutationKeepsSlots(s: seq<int>, t: seq<int>, n: int)
    requires multiset(s) == multiset(t)
    requires IndirectSort.InBounds(t, n)
    requires forall a, b :: 0 <= a < b < |t| ==> t[a] != t[b]
    ensures |s| == |t|
    ensures forall x :: x in s <==> x in t
    ensures IndirectSort.InBounds(s, n)
    ensures forall a, b :: 0 <= a < b < |s| ==> s[a] != s[b]
  {
    assert |s| == |multiset(s)| == |multiset(t)| == |t|;
    forall x ensures x in s <==> x in t {
      assert x in s <==> x in multiset(s);
      assert x in t <==> x in multiset(t);
    }
    assert forall i :: 0 <= i < |s| ==> s[i] in s;
    assert forall x :: x in t ==> 0 <= x < n;
    forall a, b | 0 <= a < b < |s| ensures s[a] != s[b] {
      if s[a] == s[b] {
        DuplicateCounts(s, a, b);
        DistinctCounts(t, s[a]);
        assert false;
      }
    }
  }

  lemma {:induction false} DuplicateCounts(s: seq<int>, a: nat, b: nat)
    requires a < b < |s| && s[a] == s[b]
    ensures multiset(s)[s[a]] >= 2
  {
    assert s == s[..a] + [s[a]] + s[a + 1..b] + [s[b]] + s[b + 1..];
  }

  lemma {:induction false} DistinctCounts(t: seq<int>, x: int)
    requires forall a, b :: 0 <= a < b < |t| ==> t[a] != t[b]
    ensures multiset(t)[x] <= 1
    decreases |t|
  {
    if t != [] {
      var u := t[..|t| - 1];
      assert t == u + [t[|t| - 1]];
      DistinctCounts(u, x);
      if t[|t| - 1] == x {
        assert x !in u;
      }
    }
  }

  /** The scan inside `createEntryIndexes()`: the reserved slot first if in
      use, then the regular slots in ascending order, stopping once `size`
      slots are collected. The scan stays within the regular slots because
      `size` counts them. */
  method ScanSlots(keys: array<i64>, mask: int, hasEmptyKey: bool, size: int) returns (entryIndexes: array<int>)
    requires 0 <= mask && keys.Length == mask + 2
    requires size == (if hasEmptyKey then 1 else 0) + CountNonZero(keys[..mask + 1])
    ensures fresh(entryIndexes)
    ensures entryIndexes[..] == (if hasEmptyKey then [mask + 1] else []) + RegularSlots(keys[..mask + 1])
  {
    ghost var regular := keys[..mask + 1];
    ghost var reserved := if hasEmptyKey then [mask + 1] else [];
    entryIndexes := new int[size];
    var entry := 0;
    if hasEmptyKey {
      entryIndexes[entry] := mask + 1;
      entry := entry + 1;
    }
    var keyIndex := 0;
    assert regular[..keyIndex] == [];
    while entry < size
      invariant 0 <= keyIndex <= mask + 1
      invariant entry <= size
      invariant entry == |reserved| + CountNonZero(regular[..keyIndex])
      invariant entryIndexes[..entry] == reserved + RegularSlots(regular[..keyIndex])
      decreases mask + 1 - keyIndex
    {
      CountPrefix(regular, keyIndex);
      PrefixSnoc(regular, keyIndex);
      assert regular[keyIndex] == keys[keyIndex];
      if keys[keyIndex] != 0 {
        entryIndexes[entry] := keyIndex;
        assert entryIndexes[..entry + 1] == entryIndexes[..entry] + [keyIndex];
        entry := entry + 1;
      } else {
        assert RegularSlots(regular[..keyIndex + 1]) == RegularSlots(regular[..keyIndex]);
      }
      keyIndex := keyIndex + 1;
    }
    CountPrefix(regular, keyIndex);
    RegularSlotsSaturated(regular, keyIndex);
    assert entryIndexes[..] == entryIndexes[..entry];
  }
}
