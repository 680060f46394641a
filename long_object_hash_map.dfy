/** The delegate map the sorted view reads from: HPPC's `LongObjectHashMap`,
    an open-addressing table from `long` keys to object values.

    Only its storage and the read operations the view passes through are
    modelled. The table keeps parallel `keys` and `values` arrays of length
    `mask + 2`: slots `0 .. mask` are the regular slots, where key 0 marks an
    empty slot, and slot `mask + 1` is reserved for the key 0 itself, in use
    when `hasEmptyKey` holds. `assignedCount` (HPPC's `assigned`) counts the occupied regular slots.
    Hashing, probing, insertion, removal and growth are not part of this
    model; lookups find the slot that holds a key by scanning. */
module LongObjectHashMaps {
  import opened LongTypes

  /** The number of non-zero (occupied) keys in `s`. */
  function CountNonZero(s: seq<i64>): nat
    decreases |s|
  {
    if s == [] then 0 else CountNonZero(s[..|s| - 1]) + (if s[|s| - 1] != 0 then 1 else 0)
  }

  /** A slot of `s` that holds no key, wherever some occupied-key count falls
      short of the number of slots. */
  lemma {:induction false} EmptySlotExists(s: seq<i64>)
    requires CountNonZero(s) < |s|
    ensures exists i :: 0 <= i < |s| && s[i] == 0
    decreases |s|
  {
    var n := |s| - 1;
    if s[n] != 0 {
      EmptySlotExists(s[..n]);
      var i :| 0 <= i < n && s[..n][i] == 0;
      assert s[i] == 0;
    }
  }

  /** A count of zero means no key at all. */
  lemma {:induction false} CountNonZeroZero(s: seq<i64>)
    ensures CountNonZero(s) == 0 <==> forall i :: 0 <= i < |s| ==> s[i] == 0
    decreases |s|
  {
    if s != [] {
      var t := s[..|s| - 1];
      CountNonZeroZero(t);
      assert forall i :: 0 <= i < |t| ==> t[i] == s[i];
    }
  }

  class LongObjectHashMap<V> {
    var keys: array<i64>
    var values: array<V>
    var mask: int
    var assignedCount: int
    var hasEmptyKey: bool

    /** The table's invariant, as far as the view relies on it: the arrays
        have `mask + 2` slots, the reserved slot's key is 0, `assignedCount` is the
        number of occupied regular slots, at least one regular slot is free
        (the load factor is below one) and no key is stored twice. */
    ghost predicate Valid()
      reads this, keys
    {
      && 0 <= mask
      && keys.Length == mask + 2
      && values.Length == mask + 2
      && keys[mask + 1] == 0
      && assignedCount == CountNonZero(keys[..mask + 1])
      && assignedCount <= mask
      && (forall i, j :: 0 <= i < j <= mask && keys[i] != 0 ==> keys[i] != keys[j])
    }

    /** Whether `slot` holds an entry: a regular slot with a non-zero key, or
        the reserved slot while the key 0 is present. */
    predicate Occupied(slot: int)
      reads this, keys
      requires keys.Length == mask + 2
    {
      || (0 <= slot <= mask && keys[slot] != 0)
      || (slot == mask + 1 && hasEmptyKey)
    }

    /** `size()`: the occupied regular slots plus the reserved one if in use. */
    function Size(): int
      reads this
    {
      assignedCount + (if hasEmptyKey then 1 else 0)
    }

    /** `isEmpty()`. */
    predicate IsEmpty()
      reads this
    {
      Size() == 0
    }

    /** The map is empty exactly when no slot holds an entry. */
    lemma IsEmptyIffNoEntries()
      requires Valid()
      ensures IsEmpty() <==> forall slot :: 0 <= slot <= mask + 1 ==> !Occupied(slot)
    {
      var regular := keys[..mask + 1];
      CountNonZeroZero(regular);
      if forall slot :: 0 <= slot <= mask + 1 ==> !Occupied(slot) {
        assert !Occupied(mask + 1);
        forall i | 0 <= i < |regular| ensures regular[i] == 0 {
          assert !Occupied(i);
        }
      }
    }

    /** The regular slot at or after `i` that holds `key`, or -1. */
    function FindKey(key: i64, i: int): (r: int)
      reads this, keys
      requires keys.Length == mask + 2 && 0 <= i <= mask + 1
      ensures r == -1 || (i <= r <= mask && keys[r] == key)
      ensures r == -1 ==> forall j :: i <= j <= mask ==> keys[j] != key
      decreases mask + 1 - i
    {
      if i == mask + 1 then -1
      else if keys[i] == key then i
      else FindKey(key, i + 1)
    }

    /** The first free regular slot at or after `i`. */
    function FirstFree(i: int): (r: int)
      reads this, keys
      requires keys.Length == mask + 2 && 0 <= i
      requires exists j :: i <= j <= mask && keys[j] == 0
      ensures i <= r <= mask && keys[r] == 0
      decreases mask + 1 - i
    {
      if keys[i] == 0 then i else FirstFree(i + 1)
    }

    /** `indexOf(key)`: the slot holding `key` if present; otherwise the
        complement (`~`) of a slot where it could be inserted. That slot is the
        reserved one for the key 0; for another key it is a free regular slot
        (the real table returns the free slot its probe sequence ends on, which
        depends on hashing; this model returns the first free one). */
    function IndexOf(key: i64): (r: int)
      reads this, keys
      requires Valid()
      ensures 0 <= r ==> Occupied(r) && keys[r] == key
      ensures r < 0 ==> forall slot :: 0 <= slot <= mask + 1 && Occupied(slot) ==> keys[slot] != key
      ensures r < 0 ==> 0 <= BitNot(r) <= mask + 1 && !Occupied(BitNot(r))
      ensures r < 0 ==> (BitNot(r) == mask + 1 <==> key == 0)
    {
      if key == 0 then
        if hasEmptyKey then mask + 1 else BitNot(mask + 1)
      else
        var slot := FindKey(key, 0);
        if slot >= 0 then slot
        else
          EmptySlotExists(keys[..mask + 1]);
          assert exists j :: 0 <= j <= mask && keys[j] == 0;
          BitNot(FirstFree(0))
    }

    /** A slot holding `key` is the one `IndexOf` finds: keys are stored once. */
    lemma IndexOfFindsSlot(slot: int)
      requires Valid() && 0 <= slot <= mask + 1 && Occupied(slot)
      ensures IndexOf(keys[slot]) == slot
    {
      if slot <= mask {
        var r := FindKey(keys[slot], 0);
        assert r != -1;
      }
    }

    /** `containsKey(key)`: whether some slot holds `key`. */
    function ContainsKey(key: i64): (r: bool)
      reads this, keys
      requires Valid()
      ensures r <==> exists slot :: 0 <= slot <= mask + 1 && Occupied(slot) && keys[slot] == key
    {
      IndexOf(key) >= 0
    }

    /** `get(key)`: the value stored under `key`, or `None` (Java's `null`). */
    function Get(key: i64): (r: Option<V>)
      reads this, keys, values
      requires Valid()
      ensures r.Some? <==> ContainsKey(key)
      ensures r.Some? ==>
        exists slot :: 0 <= slot <= mask + 1 && Occupied(slot) && keys[slot] == key && values[slot] == r.value
    {
      var slot := IndexOf(key);
      if slot >= 0 then Some(values[slot]) else None
    }

    /** `getOrDefault(key, defaultValue)`. */
    function GetOrDefault(key: i64, defaultValue: V): (r: V)
      reads this, keys, values
      requires Valid()
      ensures ContainsKey(key) ==> Get(key) == Some(r)
      ensures !ContainsKey(key) ==> r == defaultValue
    {
      var slot := IndexOf(key);
      if slot >= 0 then values[slot] else defaultValue
    }

    /** `indexExists(index)`, for an index obtained from `IndexOf` on this
        state: true iff it designates an occupied slot. */
    function IndexExists(index: int): (r: bool)
      reads this, keys
      requires Valid()
      requires index < 0 || Occupied(index)
      ensures r <==> 0 <= index <= mask + 1 && Occupied(index)
    {
      index >= 0
    }

    /** `indexGet(index)`, for an index of an occupied slot. */
    function IndexGet(index: int): (r: V)
      reads this, keys, values
      requires Valid()
      requires Occupied(index)
      ensures Get(keys[index]) == Some(r)
    {
      IndexOfFindsSlot(index);
      values[index]
    }
  }
}
