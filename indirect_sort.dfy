/** The sort routine the sorted view hands its slot-index array to.

    The view calls `QuickSort.sort(int[], IntBinaryOperator)`, an in-place
    comparison sort whose comparator is handed positions of the array and reads
    the slot stored there. This module stands in for it with an in-place
    insertion sort by adjacent swaps that has the same contract: the array ends
    up a permutation of what it held, ordered by the comparator applied to the
    payload each element designates ("indirect sort"). It is not the routine's
    own algorithm, which is not part of this model. */
module IndirectSort {

  /** A comparator in Java's sense answers negative, zero or positive. It is
      total on `payload` when any two payloads can be put in some order. */
  ghost predicate Total<T>(payload: seq<T>, cmp: (T, T) -> int) {
    forall i, j {:trigger cmp(payload[i], payload[j])} :: 0 <= i < |payload| && 0 <= j < |payload| ==>
      cmp(payload[i], payload[j]) <= 0 || cmp(payload[j], payload[i]) <= 0
  }

  /** "Ordered no later than" is transitive on `payload`. With `Total` this
      makes the comparator a total preorder there, which is what the
      `java.util.Comparator` contract asks of callers (for all values). */
  ghost predicate Transitive<T>(payload: seq<T>, cmp: (T, T) -> int) {
    forall i, j, k {:trigger cmp(payload[i], payload[j]), cmp(payload[j], payload[k]), cmp(payload[i], payload[k])} ::
      0 <= i < |payload| && 0 <= j < |payload| && 0 <= k < |payload| ==>
      cmp(payload[i], payload[j]) <= 0 && cmp(payload[j], payload[k]) <= 0 ==> cmp(payload[i], payload[k]) <= 0
  }

  /** Every element of `s` designates a payload. */
  predicate InBounds(s: seq<int>, n: int) {
    forall i :: 0 <= i < |s| ==> 0 <= s[i] < n
  }

  /** Neighbouring elements are in comparator order. */
  predicate AdjacentSorted<T>(s: seq<int>, payload: seq<T>, cmp: (T, T) -> int)
    requires InBounds(s, |payload|)
  {
    forall i :: 0 <= i < |s| - 1 ==> cmp(payload[s[i]], payload[s[i + 1]]) <= 0
  }

  /** Every element is in comparator order with every later one. */
  predicate Sorted<T>(s: seq<int>, payload: seq<T>, cmp: (T, T) -> int)
    requires InBounds(s, |payload|)
  {
    forall i, j {:trigger cmp(payload[s[i]], payload[s[j]])} :: 0 <= i < j < |s| ==> cmp(payload[s[i]], payload[s[j]]) <= 0
  }

  /** For a transitive comparator, ordering the neighbours orders everything. */
  lemma {:induction false} AdjacentSortedIsSorted<T>(s: seq<int>, payload: seq<T>, cmp: (T, T) -> int)
    requires Transitive(payload, cmp)
    requires InBounds(s, |payload|) && AdjacentSorted(s, payload, cmp)
    ensures Sorted(s, payload, cmp)
  {
    forall i, j | 0 <= i < j < |s|
      ensures cmp(payload[s[i]], payload[s[j]]) <= 0
    {
      OrderedAcross(s, payload, cmp, i, j);
    }
  }

  lemma {:induction false} OrderedAcross<T>(s: seq<int>, payload: seq<T>, cmp: (T, T) -> int, i: nat, j: nat)
    requires Transitive(payload, cmp)
    requires InBounds(s, |payload|) && AdjacentSorted(s, payload, cmp)
    requires i < j < |s|
    ensures cmp(payload[s[i]], payload[s[j]]) <= 0
    decreases j - i
  {
    if i + 1 < j {
      OrderedAcross(s, payload, cmp, i + 1, j);
      assert cmp(payload[s[i]], payload[s[i + 1]]) <= 0;
    }
  }

  /** Exchanges two neighbouring elements of `a`. */
  method SwapDown(a: array<int>, j: int)
    requires 0 < j < a.Length
    modifies a
    ensures a[..] == old(a[..])[j - 1 := old(a[j])][j := old(a[j - 1])]
    ensures multiset(a[..]) == old(multiset(a[..]))
  {
    a[j - 1], a[j] := a[j], a[j - 1];
  }

  /** Sorts `a` in place so that neighbouring elements are in comparator order
      on the payloads they designate. Totality is all this needs; callers that
      also have transitivity get `Sorted` from `AdjacentSortedIsSorted`. */
  method Sort<T>(a: array<int>, payload: seq<T>, cmp: (T, T) -> int)
    requires Total(payload, cmp)
    requires InBounds(a[..], |payload|)
    modifies a
    ensures multiset(a[..]) == old(multiset(a[..]))
    ensures InBounds(a[..], |payload|)
    ensures AdjacentSorted(a[..], payload, cmp)
  {
    var i := 0;
    while i < a.Length
      invariant 0 <= i <= a.Length
      invariant multiset(a[..]) == old(multiset(a[..]))
      invariant InBounds(a[..], |payload|)
      invariant AdjacentSorted(a[..i], payload, cmp)
    {
      InsertDown(a, i, payload, cmp);
      i := i + 1;
    }
    assert a[..i] == a[..];
  }

  /** While `a[i]` moves down to position `j`, every neighbouring pair of
      `s[..i + 1]` is in order except possibly the one at the moving element,
      `(j - 1, j)`, and the element left of it is ordered before the one right
      of it. */
  ghost predicate InOrderExceptAt<T>(s: seq<int>, payload: seq<T>, cmp: (T, T) -> int, i: int, j: int)
    requires InBounds(s, |payload|) && 0 <= j <= i < |s|
  {
    && (forall k :: 0 <= k < i && k + 1 != j ==> cmp(payload[s[k]], payload[s[k + 1]]) <= 0)
    && (0 < j < i ==> cmp(payload[s[j - 1]], payload[s[j + 1]]) <= 0)
  }

  lemma SwapDownKeepsOrder<T>(s: seq<int>, payload: seq<T>, cmp: (T, T) -> int, i: int, j: int)
    requires Total(payload, cmp)
    requires InBounds(s, |payload|) && 0 < j <= i < |s|
    requires InOrderExceptAt(s, payload, cmp, i, j)
    requires cmp(payload[s[j - 1]], payload[s[j]]) > 0
    ensures InBounds(s[j - 1 := s[j]][j := s[j - 1]], |payload|)
    ensures InOrderExceptAt(s[j - 1 := s[j]][j := s[j - 1]], payload, cmp, i, j - 1)
  {
    assert cmp(payload[s[j]], payload[s[j - 1]]) <= 0;
  }

  /** One step of the insertion sort: with `a[..i]` in order, moves `a[i]`
      down until its left neighbour is ordered before it, so that `a[..i + 1]`
      is in order, rearranging only that prefix. */
  method InsertDown<T>(a: array<int>, i: int, payload: seq<T>, cmp: (T, T) -> int)
    requires Total(payload, cmp)
    requires 0 <= i < a.Length
    requires InBounds(a[..], |payload|)
    requires AdjacentSorted(a[..i], payload, cmp)
    modifies a
    ensures multiset(a[..]) == old(multiset(a[..]))
    ensures InBounds(a[..], |payload|)
    ensures AdjacentSorted(a[..i + 1], payload, cmp)
    ensures a[i + 1..] == old(a[i + 1..])
    ensures multiset(a[..i + 1]) == old(multiset(a[..i + 1]))
  {
    ghost var a0 := a[..];
    ghost var suffix := a0[i + 1..];
    assert a0 == a0[..i + 1] + suffix;
    var j := i;
    while j > 0 && cmp(payload[a[j - 1]], payload[a[j]]) > 0
      invariant 0 <= j <= i
      invariant multiset(a[..]) == multiset(a0)
      invariant a[..] == a[..i + 1] + suffix
      invariant InBounds(a[..], |payload|)
      invariant InOrderExceptAt(a[..], payload, cmp, i, j)
    {
      SwapDownKeepsOrder(a[..], payload, cmp, i, j);
      SwapKeepsSuffix(a[..], i, j, suffix);
      SwapDown(a, j);
      j := j - 1;
    }
    InsertedInOrder(a[..], payload, cmp, i, j);
    PrefixRearranged(a[..], a0, i + 1, suffix);
  }

  /** Swapping two neighbours at or below `i` leaves what follows `i` alone. */
  lemma SwapKeepsSuffix(s: seq<int>, i: int, j: int, suffix: seq<int>)
    requires 0 < j <= i < |s| && s == s[..i + 1] + suffix
    ensures s[j - 1 := s[j]][j := s[j - 1]] == s[j - 1 := s[j]][j := s[j - 1]][..i + 1] + suffix
  {
    var t := s[j - 1 := s[j]][j := s[j - 1]];
    assert forall k :: i < k < |s| ==> t[k] == s[k] == suffix[k - (i + 1)];
  }

  /** Once the moving element has stopped, the prefix is in order. */
  lemma InsertedInOrder<T>(s: seq<int>, payload: seq<T>, cmp: (T, T) -> int, i: int, j: int)
    requires InBounds(s, |payload|) && 0 <= j <= i < |s|
    requires InOrderExceptAt(s, payload, cmp, i, j)
    requires j == 0 || cmp(payload[s[j - 1]], payload[s[j]]) <= 0
    ensures AdjacentSorted(s[..i + 1], payload, cmp)
  {
    var prefix := s[..i + 1];
    forall k | 0 <= k < i
      ensures cmp(payload[prefix[k]], payload[prefix[k + 1]]) <= 0
    {
      assert prefix[k] == s[k] && prefix[k + 1] == s[k + 1];
    }
  }

  /** Two arrangements of the same elements that end in the same suffix
      arrange the same elements before it. */
  lemma PrefixRearranged(s: seq<int>, t: seq<int>, n: int, suffix: seq<int>)
    requires 0 <= n <= |s| && 0 <= n <= |t|
    requires multiset(s) == multiset(t)
    requires s == s[..n] + suffix && t == t[..n] + suffix
    ensures s[n..] == t[n..]
    ensures multiset(s[..n]) == multiset(t[..n])
  {
    assert s[n..] == suffix && t[n..] == suffix;
    calc {
      multiset(s[..n]);
      multiset(s[..n]) + multiset(suffix) - multiset(suffix);
      multiset(s) - multiset(suffix);
      multiset(t) - multiset(suffix);
      multiset(t[..n]) + multiset(suffix) - multiset(suffix);
      multiset(t[..n]);
    }
  }
}
