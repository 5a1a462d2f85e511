/**
  The order-statistic engine of Selection.java: quickselect over an array, with an external
  comparator and a median-of-three pivot. Every operation works in place on the array.
*/
module Selection {
  import opened Comparators
  import opened OrderStatistics
  import JavaInt

  /** Exchange the elements at positions i and j; nothing happens when i == j. */
  method Swap<T>(a: array<T>, i: int, j: int)
    requires 0 <= i < a.Length && 0 <= j < a.Length
    modifies a
    ensures a[i] == old(a[j]) && a[j] == old(a[i])
    ensures forall m :: 0 <= m < a.Length && m != i && m != j ==> a[m] == old(a[m])
    ensures multiset(a[..]) == old(multiset(a[..]))
    ensures i == j ==> a[..] == old(a[..])
  {
    if i == j {
      return;
    }
    var tmp := a[i];
    a[i] := a[j];
    a[j] := tmp;
  }

  /** Two sequences that agree outside [lo, hi] and hold the same elements hold the same elements in [lo, hi]. */
  lemma WindowMultiset<T>(s: seq<T>, t: seq<T>, lo: int, hi: int)
    requires 0 <= lo <= hi < |s| == |t|
    requires multiset(s) == multiset(t)
    requires forall m :: 0 <= m < |s| && !(lo <= m <= hi) ==> s[m] == t[m]
    ensures multiset(s[lo..hi + 1]) == multiset(t[lo..hi + 1])
  {
    var prefix, suffix := s[..lo], s[hi + 1..];
    assert t[..lo] == prefix;
    assert t[hi + 1..] == suffix;
    assert s == prefix + s[lo..hi + 1] + suffix;
    assert t == prefix + t[lo..hi + 1] + suffix;
    var rest := multiset(prefix) + multiset(suffix);
    assert multiset(s) == multiset(s[lo..hi + 1]) + rest;
    assert multiset(t) == multiset(t[lo..hi + 1]) + rest;
    MultisetCancel(multiset(s[lo..hi + 1]), multiset(t[lo..hi + 1]), rest);
  }

  /**
    t is s with its window [left, right] rearranged around the pivot that lands at store: the
    elements there are the same, those before store sort no later than the pivot, those after it
    sort strictly after it, and nothing outside the window has changed.
  */
  ghost predicate PartitionedAround<T>(cmp: (T, T) -> int, s: seq<T>, t: seq<T>, left: int, right: int, store: int) {
    && |t| == |s|
    && 0 <= left <= store <= right < |t|
    && (forall m {:trigger Le(cmp, t[m], t[store])} :: left <= m < store ==> Le(cmp, t[m], t[store]))
    && (forall m {:trigger Le(cmp, t[m], t[store])} :: store < m <= right ==> !Le(cmp, t[m], t[store]))
    && multiset(t) == multiset(s)
    && (forall m {:trigger t[m]} :: 0 <= m < |t| && !(left <= m <= right) ==> t[m] == s[m])
  }

  /** Partitioning rearranges the window [left, right] without changing its elements. */
  lemma PartitionedAroundWindow<T>(cmp: (T, T) -> int, s: seq<T>, t: seq<T>, left: int, right: int, store: int)
    requires PartitionedAround(cmp, s, t, left, right, store)
    ensures multiset(t[left..right + 1]) == multiset(s[left..right + 1])
  {
    WindowMultiset(s, t, left, right);
  }

  /**
    Partition a[left..right] around the element at pivotIndex: the pivot is parked at right, every
    element that compares <= 0 with it is gathered at the front, and the pivot is swapped into the
    boundary, whose index is returned.
  */
  method Partition<T>(a: array<T>, left: int, right: int, pivotIndex: int, cmp: (T, T) -> int) returns (store: int)
    requires 0 <= left <= pivotIndex <= right < a.Length
    modifies a
    ensures left <= store <= right
    ensures a[store] == old(a[pivotIndex])
    ensures PartitionedAround(cmp, old(a[..]), a[..], left, right, store)
  {
    var pivot := a[pivotIndex];
    Swap(a, right, pivotIndex);
    store := left;
    for idx := left to right
      invariant left <= store <= idx
      invariant a[right] == pivot
      invariant forall m :: left <= m < store ==> Le(cmp, a[m], pivot)
      invariant forall m :: store <= m < idx ==> !Le(cmp, a[m], pivot)
      invariant multiset(a[..]) == old(multiset(a[..]))
      invariant forall m :: 0 <= m < a.Length && !(left <= m <= right) ==> a[m] == old(a[m])
    {
      if cmp(a[idx], pivot) <= 0 {
        Swap(a, idx, store);
        store := store + 1;
      }
    }
    Swap(a, right, store);
  }

  /**
    The index, among left, the midpoint and right, of the median of the three elements there:
    whichever of the three it returns lies between the other two.
  */
  method SelectPivotIndex<T(!new)>(a: array<T>, left: int, right: int, cmp: (T, T) -> int) returns (idx: int)
    requires IsComparator(cmp)
    requires 0 <= left < a.Length && 0 <= right < a.Length && a.Length <= JavaInt.MAX
    ensures idx == left || idx == (left + right) / 2 || idx == right
    ensures left <= right ==> left <= idx <= right
    ensures idx == left ==> Between(cmp, a[(left + right) / 2], a[left], a[right])
    ensures idx == (left + right) / 2 ==> Between(cmp, a[left], a[(left + right) / 2], a[right])
    ensures idx == right ==> Between(cmp, a[left], a[right], a[(left + right) / 2])
  {
    var midIndex := JavaInt.MidIndex(left, right);
    var lowIndex := left;
    if cmp(a[lowIndex], a[midIndex]) >= 0 {
      Antisymmetric(cmp, a[midIndex], a[lowIndex]);
      lowIndex := midIndex;
      midIndex := left;
    }
    // here a[lowIndex] sorts no later than a[midIndex]
    Total(cmp, a[right], a[lowIndex]);
    Total(cmp, a[right], a[midIndex]);
    if cmp(a[right], a[lowIndex]) <= 0 {
      return lowIndex;
    } else if cmp(a[right], a[midIndex]) <= 0 {
      return right;
    }
    return midIndex;
  }

  /**
    The search window [lo, hi] inside [left, right] of s is bracketed: everything in [left, lo)
    sorts no later than everything in the window, which sorts no later than everything in (hi, right].
  */
  ghost predicate Bracketed<T>(cmp: (T, T) -> int, s: seq<T>, left: int, lo: int, hi: int, right: int)
    requires 0 <= left <= lo <= hi + 1 <= right + 1 <= |s|
  {
    && (forall i, j {:trigger Le(cmp, s[i], s[j])} :: left <= i < lo && lo <= j <= hi ==> Le(cmp, s[i], s[j]))
    && (forall i, j {:trigger Le(cmp, s[i], s[j])} :: lo <= i <= hi && hi < j <= right ==> Le(cmp, s[i], s[j]))
  }

  /** Each element of t's window [lo, hi] is one of s's window when the two windows hold the same elements. */
  lemma ElementOfWindow<T>(s: seq<T>, t: seq<T>, lo: int, hi: int, j: int)
    requires 0 <= lo <= j <= hi < |s| == |t|
    requires multiset(s[lo..hi + 1]) == multiset(t[lo..hi + 1])
    ensures exists j0 :: lo <= j0 <= hi && s[j0] == t[j]
  {
    assert t[j] == t[lo..hi + 1][j - lo];
    assert t[j] in multiset(s[lo..hi + 1]);
    var m :| 0 <= m < hi + 1 - lo && s[lo..hi + 1][m] == t[j];
    assert s[lo + m] == t[j];
  }

  /**
    One round of select: t is s after partitioning the bracketed window [lo, hi] with the pivot
    landing at p. Then each of [lo, p - 1], [p, p] and [p + 1, hi] is a bracketed window of t.
  */
  lemma PartitionKeepsBracketed<T(!new)>(cmp: (T, T) -> int, s: seq<T>, t: seq<T>, left: int, lo: int, hi: int, right: int,
                                         p: int, lo': int, hi': int)
    requires IsComparator(cmp)
    requires 0 <= left <= lo <= p <= hi <= right < |s| == |t|
    requires Bracketed(cmp, s, left, lo, hi, right)
    requires forall m :: lo <= m < p ==> Le(cmp, t[m], t[p])
    requires forall m :: p < m <= hi ==> !Le(cmp, t[m], t[p])
    requires multiset(s[lo..hi + 1]) == multiset(t[lo..hi + 1])
    requires forall m :: 0 <= m < |s| && !(lo <= m <= hi) ==> t[m] == s[m]
    requires (lo' == lo && hi' == p - 1) || (lo' == p && hi' == p) || (lo' == p + 1 && hi' == hi)
    ensures Bracketed(cmp, t, left, lo', hi', right)
  {
    forall i, j | left <= i < lo && lo <= j <= hi
      ensures Le(cmp, t[i], t[j])
    {
      ElementOfWindow(s, t, lo, hi, j);
    }
    forall i, j | lo <= i <= hi && hi < j <= right
      ensures Le(cmp, t[i], t[j])
    {
      ElementOfWindow(s, t, lo, hi, i);
    }
    forall i, j | lo <= i <= p <= j <= hi
      ensures Le(cmp, t[i], t[j])
    {
      Reflexive(cmp, t[p]);
      Total(cmp, t[j], t[p]);
      Transitive(cmp, t[i], t[p], t[j]);
    }
  }

  /**
    The loop invariant of select over the original contents s0 and the current contents t: t holds
    the same elements as s0, differs from it only within [left, right], and the window [lo, hi]
    is bracketed.
  */
  ghost predicate SelectState<T>(cmp: (T, T) -> int, s0: seq<T>, t: seq<T>, left: int, lo: int, hi: int, right: int) {
    && |t| == |s0|
    && 0 <= left <= lo <= hi + 1 <= right + 1 <= |t|
    && multiset(t) == multiset(s0)
    && (forall m {:trigger t[m]} :: 0 <= m < |t| && !(left <= m <= right) ==> t[m] == s0[m])
    && Bracketed(cmp, t, left, lo, hi, right)
  }

  /**
    One round of select keeps its invariant: s is the array's contents before Partition, and the
    search continues in [lo, p - 1] or [p + 1, hi], or stops at [p, p].
  */
  lemma SelectRound<T(!new)>(cmp: (T, T) -> int, s0: seq<T>, s: seq<T>, t: seq<T>, left: int, lo: int, hi: int, right: int,
                             p: int, lo': int, hi': int)
    requires IsComparator(cmp)
    requires SelectState(cmp, s0, s, left, lo, hi, right)
    requires PartitionedAround(cmp, s, t, lo, hi, p)
    requires (lo' == lo && hi' == p - 1) || (lo' == p && hi' == p) || (lo' == p + 1 && hi' == hi)
    ensures SelectState(cmp, s0, t, left, lo', hi', right)
  {
    PartitionedAroundWindow(cmp, s, t, lo, hi, p);
    PartitionKeepsBracketed(cmp, s, t, left, lo, hi, right, p, lo', hi');
  }

  /**
    When the pivot lands on the target position p = left + k - 1, it is the k-th order statistic of
    the original s0[left..right], and the array is arranged around it.
  */
  lemma SelectFound<T(!new)>(cmp: (T, T) -> int, s0: seq<T>, a: array<T>, left: int, right: int, k: int, p: int)
    requires IsComparator(cmp)
    requires 1 <= k <= right - left + 1 && p == left + k - 1
    requires SelectState(cmp, s0, a[..], left, p, p, right)
    ensures IsOrderStatistic(cmp, s0[left..right + 1], k, a[p])
    ensures forall m :: left <= m < p ==> Le(cmp, a[m], a[p])
    ensures forall m :: p < m <= right ==> Le(cmp, a[p], a[m])
    ensures multiset(a[left..right + 1]) == multiset(s0[left..right + 1])
    ensures forall m :: 0 <= m < a.Length && !(left <= m <= right) ==> a[m] == s0[m]
  {
    var t := a[..];
    WindowMultiset(s0, t, left, right);
    var w := t[left..right + 1];
    assert forall m :: 0 <= m < |w| ==> w[m] == t[left + m];
    OrderStatisticOfSplit(cmp, w, k - 1);
    OrderStatisticPermutation(cmp, w, s0[left..right + 1], k, w[k - 1]);
  }

  /**
    The k-th value (1 <= k <= right - left + 1) in sorted order of a[left..right]. The array is
    rearranged in place: afterwards the result sits at left + k - 1, with everything before it in
    the range sorting no later than it and everything after it sorting no earlier.
  */
  method Select<T(!new)>(a: array<T>, k: int, left: int, right: int, cmp: (T, T) -> int) returns (r: T)
    requires IsComparator(cmp)
    requires 0 <= left <= right < a.Length <= JavaInt.MAX
    requires 1 <= k <= right - left + 1
    modifies a
    ensures IsOrderStatistic(cmp, old(a[left..right + 1]), k, r)
    ensures a[left + k - 1] == r
    ensures forall m :: left <= m < left + k - 1 ==> Le(cmp, a[m], r)
    ensures forall m :: left + k - 1 < m <= right ==> Le(cmp, r, a[m])
    ensures multiset(a[left..right + 1]) == old(multiset(a[left..right + 1]))
    ensures forall m :: 0 <= m < a.Length && !(left <= m <= right) ==> a[m] == old(a[m])
  {
    ghost var s0 := a[..];
    // select reassigns its parameters left, right and k; here they are the loop variables lo, hi and kk
    var lo, hi, kk := left, right, k;
    while true
      invariant left <= lo <= hi <= right
      invariant 1 <= kk <= hi - lo + 1
      invariant lo + kk == left + k
      invariant SelectState(cmp, s0, a[..], left, lo, hi, right)
      decreases hi - lo
    {
      var idx := SelectPivotIndex(a, lo, hi, cmp);
      ghost var before := a[..];
      var pivotIndex := Partition(a, lo, hi, idx, cmp);

      if lo + kk - 1 == pivotIndex {
        SelectRound(cmp, s0, before, a[..], left, lo, hi, right, pivotIndex, pivotIndex, pivotIndex);
        SelectFound(cmp, s0, a, left, right, k, pivotIndex);
        return a[pivotIndex];
      }

      // narrow the window to the side that holds position lo + kk - 1
      if lo + kk - 1 < pivotIndex {
        // the target is left of the pivot: kk stays the same
        SelectRound(cmp, s0, before, a[..], left, lo, hi, right, pivotIndex, lo, pivotIndex - 1);
        hi := pivotIndex - 1;
      } else {
        // the target is right of the pivot: kk drops by the number of elements removed
        SelectRound(cmp, s0, before, a[..], left, lo, hi, right, pivotIndex, pivotIndex + 1, hi);
        kk := kk - (pivotIndex - lo + 1);
        lo := pivotIndex + 1;
      }
    }
  }

  /** [1, 2, 3, 5, 8, 9] holds the elements of [5, 3, 8, 1, 9, 2] ... */
  lemma ExamplePermutation()
    ensures multiset([1, 2, 3, 5, 8, 9]) == multiset([5, 3, 8, 1, 9, 2])
  {
  }

  /** ... in sorted order. */
  lemma ExampleSorted()
    ensures Sorted(NaturalOrder, [1, 2, 3, 5, 8, 9])
  {
  }

  /**
    select([5, 3, 8, 1, 9, 2], k = 3) under the natural order of int yields 3, the third element
    of the sorted arrangement [1, 2, 3, 5, 8, 9].
  */
  method SelectExample() returns (r: int)
    ensures r == 3
  {
    var a := new int[6] [5, 3, 8, 1, 9, 2];
    assert a[0..6] == [5, 3, 8, 1, 9, 2];
    NaturalOrderIsComparator();
    r := Select(a, 3, 0, 5, NaturalOrder);
    ExamplePermutation();
    ExampleSorted();
    OrderStatisticIsSortedElement(NaturalOrder, [5, 3, 8, 1, 9, 2], [1, 2, 3, 5, 8, 9], 3, r);
  }
}
