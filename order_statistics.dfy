/**
  What "the k-th value in sorted order" means for a comparator that may report distinct elements
  as equal. Sorting is then not unique, so the k-th value is characterised by counting instead:
  fewer than k elements sort strictly before it and at least k sort no later than it. The lemmas
  below tie this to every sorted arrangement of the same elements.
*/
module OrderStatistics {
  import opened Comparators

  /** e sorts before x: strictly (`compare(e, x) < 0`) or weakly (`compare(e, x) <= 0`). */
  predicate Below<T>(cmp: (T, T) -> int, e: T, x: T, strict: bool) {
    if strict then cmp(e, x) < 0 else cmp(e, x) <= 0
  }

  /** The number of elements of s that sort (strictly or weakly) before x. */
  function CountBelow<T>(cmp: (T, T) -> int, s: seq<T>, x: T, strict: bool): (n: nat)
    ensures n <= |s|
  {
    if s == [] then 0
    else (if Below(cmp, s[0], x, strict) then 1 else 0) + CountBelow(cmp, s[1..], x, strict)
  }

  /** r is an element of s that some sorted arrangement of s holds at position k - 1. */
  ghost predicate IsOrderStatistic<T>(cmp: (T, T) -> int, s: seq<T>, k: int, r: T) {
    && r in s
    && CountBelow(cmp, s, r, true) < k <= CountBelow(cmp, s, r, false)
  }

  /** s is sorted by cmp. */
  ghost predicate Sorted<T>(cmp: (T, T) -> int, s: seq<T>) {
    forall i, j :: 0 <= i < j < |s| ==> Le(cmp, s[i], s[j])
  }

  /** All elements are counted exactly when every one of them sorts before x. */
  lemma {:induction false} CountBelowAll<T>(cmp: (T, T) -> int, s: seq<T>, x: T, strict: bool)
    ensures CountBelow(cmp, s, x, strict) == |s| <==> forall i :: 0 <= i < |s| ==> Below(cmp, s[i], x, strict)
  {
    if s != [] {
      CountBelowAll(cmp, s[1..], x, strict);
      assert forall i :: 1 <= i < |s| ==> s[i] == s[1..][i - 1];
    }
  }

  /** No element is counted exactly when none of them sorts before x. */
  lemma {:induction false} CountBelowNone<T>(cmp: (T, T) -> int, s: seq<T>, x: T, strict: bool)
    ensures CountBelow(cmp, s, x, strict) == 0 <==> forall i :: 0 <= i < |s| ==> !Below(cmp, s[i], x, strict)
  {
    if s != [] {
      CountBelowNone(cmp, s[1..], x, strict);
      assert forall i :: 1 <= i < |s| ==> s[i] == s[1..][i - 1];
    }
  }

  lemma {:induction false} CountBelowAppend<T>(cmp: (T, T) -> int, s: seq<T>, t: seq<T>, x: T, strict: bool)
    ensures CountBelow(cmp, s + t, x, strict) == CountBelow(cmp, s, x, strict) + CountBelow(cmp, t, x, strict)
  {
    if s != [] {
      assert (s + t)[0] == s[0] && (s + t)[1..] == s[1..] + t;
      CountBelowAppend(cmp, s[1..], t, x, strict);
    } else {
      assert s + t == t;
    }
  }

  /** Removing position i takes one occurrence of t[i] out of the multiset. */
  lemma MultisetRemove<T>(t: seq<T>, i: int)
    requires 0 <= i < |t|
    ensures multiset(t[..i] + t[i + 1..]) + multiset{t[i]} == multiset(t)
  {
    assert t == t[..i] + [t[i]] + t[i + 1..];
  }

  /** Equal sums with a common part have equal remainders. */
  lemma MultisetCancel<T>(m1: multiset<T>, m2: multiset<T>, common: multiset<T>)
    requires m1 + common == m2 + common
    ensures m1 == m2
  {
    forall x
      ensures m1[x] == m2[x]
    {
      assert (m1 + common)[x] == (m2 + common)[x];
    }
  }

  /** Removing position i removes exactly the contribution of t[i] to the count. */
  lemma CountBelowRemove<T>(cmp: (T, T) -> int, t: seq<T>, i: int, x: T, strict: bool)
    requires 0 <= i < |t|
    ensures CountBelow(cmp, t, x, strict)
         == (if Below(cmp, t[i], x, strict) then 1 else 0) + CountBelow(cmp, t[..i] + t[i + 1..], x, strict)
  {
    assert t == t[..i] + [t[i]] + t[i + 1..];
    CountBelowAppend(cmp, t[..i] + [t[i]], t[i + 1..], x, strict);
    CountBelowAppend(cmp, t[..i], [t[i]], x, strict);
    CountBelowAppend(cmp, t[..i], t[i + 1..], x, strict);
  }

  /** Counting depends only on the multiset of elements, not on their order. */
  lemma {:induction false} CountBelowPermutation<T>(cmp: (T, T) -> int, s: seq<T>, t: seq<T>, x: T, strict: bool)
    requires multiset(s) == multiset(t)
    ensures CountBelow(cmp, s, x, strict) == CountBelow(cmp, t, x, strict)
  {
    if s == [] {
      assert |t| == |multiset(t)| == 0;
    } else {
      var e := s[0];
      assert e in multiset(s);
      var i :| 0 <= i < |t| && t[i] == e;
      var rest := t[..i] + t[i + 1..];
      assert s == [e] + s[1..];
      assert multiset(s[1..]) + multiset{e} == multiset(s);
      MultisetRemove(t, i);
      MultisetCancel(multiset(s[1..]), multiset(rest), multiset{e});
      CountBelowPermutation(cmp, s[1..], rest, x, strict);
      CountBelowRemove(cmp, t, i, x, strict);
    }
  }

  /** Counting is monotone in the condition counted. */
  lemma {:induction false} CountBelowMonotone<T>(cmp: (T, T) -> int, s: seq<T>, x: T, sx: bool, y: T, sy: bool)
    requires forall e :: e in s && Below(cmp, e, x, sx) ==> Below(cmp, e, y, sy)
    ensures CountBelow(cmp, s, x, sx) <= CountBelow(cmp, s, y, sy)
  {
    if s != [] {
      assert s[0] in s;
      assert forall e :: e in s[1..] ==> e in s;
      CountBelowMonotone(cmp, s[1..], x, sx, y, sy);
    }
  }

  /** An order statistic of s is one of every arrangement of the same elements. */
  lemma OrderStatisticPermutation<T>(cmp: (T, T) -> int, s: seq<T>, t: seq<T>, k: int, r: T)
    requires multiset(s) == multiset(t)
    requires IsOrderStatistic(cmp, s, k, r)
    ensures IsOrderStatistic(cmp, t, k, r)
  {
    assert r in multiset(s);
    CountBelowPermutation(cmp, s, t, r, true);
    CountBelowPermutation(cmp, s, t, r, false);
  }

  /**
    An element that everything before it sorts no later than, and that sorts no later than
    everything after it, is the order statistic of its own position.
  */
  lemma OrderStatisticOfSplit<T(!new)>(cmp: (T, T) -> int, w: seq<T>, p: int)
    requires IsComparator(cmp)
    requires 0 <= p < |w|
    requires forall i :: 0 <= i < p ==> Le(cmp, w[i], w[p])
    requires forall j :: p < j < |w| ==> Le(cmp, w[p], w[j])
    ensures IsOrderStatistic(cmp, w, p + 1, w[p])
  {
    var x := w[p];
    var before, after := w[..p], w[p + 1..];
    assert w == before + [x] + after;
    Reflexive(cmp, x);
    assert forall i :: 0 <= i < |before| ==> Below(cmp, before[i], x, false);
    forall j | 0 <= j < |after|
      ensures !Below(cmp, after[j], x, true)
    {
      Antisymmetric(cmp, x, after[j]);
    }
    CountBelowAll(cmp, before, x, false);
    CountBelowNone(cmp, after, x, true);
    CountBelowAppend(cmp, before + [x], after, x, true);
    CountBelowAppend(cmp, before, [x], x, true);
    CountBelowAppend(cmp, before + [x], after, x, false);
    CountBelowAppend(cmp, before, [x], x, false);
  }

  /** Order statistics of larger rank never sort before those of smaller rank. */
  lemma OrderStatisticMonotone<T(!new)>(cmp: (T, T) -> int, s: seq<T>, k1: int, r1: T, k2: int, r2: T)
    requires IsComparator(cmp)
    requires k1 <= k2
    requires IsOrderStatistic(cmp, s, k1, r1) && IsOrderStatistic(cmp, s, k2, r2)
    ensures Le(cmp, r1, r2)
  {
    if !Le(cmp, r1, r2) {
      Total(cmp, r1, r2);
      // then everything that sorts no later than r2 sorts strictly before r1
      forall e | e in s && Below(cmp, e, r2, false)
        ensures Below(cmp, e, r1, true)
      {
        TransitiveStrict(cmp, e, r2, r1);
      }
      CountBelowMonotone(cmp, s, r2, false, r1, true);
      assert false;
    }
  }

  /** The order statistic of a given rank is unique up to the comparator's equivalence. */
  lemma OrderStatisticUnique<T(!new)>(cmp: (T, T) -> int, s: seq<T>, k: int, r1: T, r2: T)
    requires IsComparator(cmp)
    requires IsOrderStatistic(cmp, s, k, r1) && IsOrderStatistic(cmp, s, k, r2)
    ensures cmp(r1, r2) == 0
    ensures Separates(cmp) ==> r1 == r2
  {
    OrderStatisticMonotone(cmp, s, k, r1, k, r2);
    OrderStatisticMonotone(cmp, s, k, r2, k, r1);
    Antisymmetric(cmp, r2, r1);
  }

  /** The element at position k - 1 of a sorted sequence is its k-th order statistic. */
  lemma SortedOrderStatistic<T(!new)>(cmp: (T, T) -> int, s: seq<T>, k: int)
    requires IsComparator(cmp)
    requires Sorted(cmp, s)
    requires 1 <= k <= |s|
    ensures IsOrderStatistic(cmp, s, k, s[k - 1])
  {
    OrderStatisticOfSplit(cmp, s, k - 1);
  }

  /**
    An order statistic of w agrees with position k - 1 of ANY sorted arrangement of w: it compares
    as equal to it, and is that very element when the comparator separates distinct values.
  */
  lemma OrderStatisticIsSortedElement<T(!new)>(cmp: (T, T) -> int, w: seq<T>, sorted: seq<T>, k: int, r: T)
    requires IsComparator(cmp)
    requires IsOrderStatistic(cmp, w, k, r)
    requires multiset(sorted) == multiset(w) && Sorted(cmp, sorted)
    ensures 1 <= k <= |sorted|
    ensures cmp(r, sorted[k - 1]) == 0
    ensures Separates(cmp) ==> r == sorted[k - 1]
  {
    assert |sorted| == |multiset(w)| == |w|;
    SortedOrderStatistic(cmp, sorted, k);
    OrderStatisticPermutation(cmp, sorted, w, k, sorted[k - 1]);
    OrderStatisticUnique(cmp, w, k, r, sorted[k - 1]);
  }
}
