# Quickselect with a median-of-three pivot, in Dafny

This project models the order-statistic engine of `Selection.java`: four static operations over an
array of objects and an external `Comparator`.

- `swap` exchanges two slots in place.
- `partition` moves the chosen pivot to `right` and gathers every element that compares `<= 0`
  with it into a growing prefix. It then swaps the pivot into the boundary and returns the
  boundary's index.
- `selectPivotIndex` returns whichever of `left`, the midpoint and `right` holds the median of the
  three elements there.
- `select` repeatedly partitions the range `[left, right]` and narrows it, adjusting `k` when it
  moves right, until the pivot lands at `left + k - 1`. That element is the `k`-th value in sorted
  order.

The model is imperative where the source is: `Swap`, `Partition` and `Select` are methods on a
Dafny `array<T>` with `modifies a`. `SelectPivotIndex` is a method without a `modifies` clause,
because it only reads the array.

The comparator is a function `cmp: (T, T) -> int` whose sign orders the elements, as
`Comparator.compare` does (module `Comparators`). The algorithm relies on two parts of the
`Comparator` contract, bundled as `IsComparator`:
- `compare(x, y)` and `compare(y, x)` have opposite signs;
- "compares `<= 0`" is transitive.

Together these make it a total preorder. Distinct elements may compare as `0`, so "the `k`-th value
in sorted order" is defined by counting (module `OrderStatistics`). `r` is the `k`-th order
statistic of `s` when `r` occurs in `s`, fewer than `k` elements sort strictly before `r`, and at
least `k` sort no later than it. The lemmas there show what this means for sorted arrangements:
- the `k`-th order statistic compares as `0` with position `k - 1` of every sorted arrangement of
  the same elements;
- it is that very element when the comparator never reports distinct values as equal;
- it is unique up to the comparator's equivalence and monotone in `k`.

Module `JavaInt` models the 32-bit `int` arithmetic of the midpoint computation. The midpoint as
written can overflow; see "## Findings".

`partition` keeps, for its boundary `store`, every element of `[left, store)` comparing `<= 0` with
the pivot and every element of `(store, right]` comparing `> 0`. This follows the code's `<= 0`
test. The doc comment of `partition` describes the split the other way round ("less than" on the
left, "greater than or equal" on the right). The model follows the code.

Because of that `<= 0` test, `select` only guarantees that the elements after the result sort *no
earlier* than it, not strictly after it. Elements that compare equal to the result can lie before
it, through the last partition's `<= 0` test, or after it, as pivots of earlier rounds that
narrowed the window leftward.

## Model

| member | source | states |
|---|---|---|
| JavaInt.Half | src/main/java/com/github/hrothwell/datastructures/array/Selection.java:74 | Java's `/ 2` on an int truncates toward zero: for non-negative x the result is in [0, x] and twice it is x or x - 1; for negative x it is in [x, 0] and twice it is x or x + 1 |
| JavaInt.MidIndexAsWritten | src/main/java/com/github/hrothwell/datastructures/array/Selection.java:74 | `(left + right) / 2` evaluated in 32-bit int arithmetic (sum wrapped, then truncating halving) is always an int |
| JavaInt.MidIndexAsWrittenCorrectIff | src/main/java/com/github/hrothwell/datastructures/array/Selection.java:74 | for valid indices the written midpoint equals the true midpoint exactly when left + right fits in an int, and is negative (so `ar[midIndex]` is out of bounds) whenever it does not |
| JavaInt.MidIndexAsWrittenOverflows | src/main/java/com/github/hrothwell/datastructures/array/Selection.java:74 | for left = right = 2^30, valid indices of an array of length 2^30 + 1, the written midpoint is -2^30 |
| JavaInt.MidIndex | src/main/java/com/github/hrothwell/datastructures/array/Selection.java:74 | the corrected midpoint `(left + right) >>> 1` equals the mathematical (left + right) / 2 and lies between left and right, whichever is smaller |
| Comparators.Antisymmetric | src/main/java/com/github/hrothwell/datastructures/array/Selection.java:78-88 | under the comparator contract, `compare(x, y) <= 0` holds exactly when `compare(y, x) >= 0`, which is why the `>= 0` test at line 78 swaps the two candidates into order |
| Comparators.Total | src/main/java/com/github/hrothwell/datastructures/array/Selection.java:86-88 | a failed `compare(x, y) <= 0` test means y sorts strictly before x |
| Comparators.Transitive | src/main/java/com/github/hrothwell/datastructures/array/Selection.java:51 | "compares `<= 0`" is transitive |
| Comparators.TransitiveStrict | src/main/java/com/github/hrothwell/datastructures/array/Selection.java:51 | x sorting no later than y, and y strictly before z, puts x strictly before z |
| Comparators.Reflexive | src/main/java/com/github/hrothwell/datastructures/array/Selection.java:51 | every element compares as 0 with itself, so the pivot passes its own `<= 0` test |
| OrderStatistics.CountBelowPermutation | src/main/java/com/github/hrothwell/datastructures/array/Selection.java:96-98 | the number of elements sorting before a value depends only on the multiset of elements, so rearranging the array in place does not change any rank |
| OrderStatistics.OrderStatisticPermutation | src/main/java/com/github/hrothwell/datastructures/array/Selection.java:96-98 | a k-th order statistic of a sequence is a k-th order statistic of every rearrangement of it |
| OrderStatistics.OrderStatisticOfSplit | src/main/java/com/github/hrothwell/datastructures/array/Selection.java:114-116 | an element that everything before it sorts no later than, and that sorts no later than everything after it, is the order statistic of its own position p + 1 |
| OrderStatistics.SortedOrderStatistic | src/main/java/com/github/hrothwell/datastructures/array/Selection.java:96 | in a sorted sequence the element at position k - 1 is the k-th order statistic |
| OrderStatistics.OrderStatisticMonotone | src/main/java/com/github/hrothwell/datastructures/array/Selection.java:96 | order statistics of larger rank never sort before those of smaller rank |
| OrderStatistics.OrderStatisticUnique | src/main/java/com/github/hrothwell/datastructures/array/Selection.java:96 | two k-th order statistics of the same sequence compare as 0, and are equal when the comparator separates distinct values |
| OrderStatistics.OrderStatisticIsSortedElement | src/main/java/com/github/hrothwell/datastructures/array/Selection.java:96-106 | "the k-th value in sorted order": an order statistic of rank k compares as 0 with position k - 1 of ANY sorted arrangement of the same elements (so 1 <= k <= length), and is exactly that element when the comparator separates distinct values |
| Selection.Swap | src/main/java/com/github/hrothwell/datastructures/array/Selection.java:17-31 | the old `ar[pos2]` is at pos1 and the old `ar[pos1]` at pos2, every other slot is unchanged, the multiset of the array is preserved, and when pos1 == pos2 the array is unchanged |
| Selection.PartitionedAroundWindow | src/main/java/com/github/hrothwell/datastructures/array/Selection.java:47-57 | a partition step that keeps the array's multiset and touches nothing outside [left, right] keeps the multiset of `ar[left..right]` |
| Selection.Partition | src/main/java/com/github/hrothwell/datastructures/array/Selection.java:45-59 | the returned store is in [left, right] and holds the original `ar[pivotIndex]`; every element of [left, store) compares `<= 0` with it and every element of (store, right] compares `> 0`; the array holds the same elements, and nothing outside [left, right] changes (loop invariant: left <= store <= idx, the `<= 0` prefix [left, store) and the `> 0` block [store, idx)) |
| Selection.SelectPivotIndex | src/main/java/com/github/hrothwell/datastructures/array/Selection.java:73-93 | the index is left, (left + right) / 2 or right, lies in [left, right] when left <= right, and the element there lies between the other two candidates; the array is not modified |
| Selection.PartitionKeepsBracketed | src/main/java/com/github/hrothwell/datastructures/array/Selection.java:111-127 | after partitioning a window that is bracketed inside [left, right] (everything to its left sorts no later than it, everything to its right no earlier), each of [lo, p - 1], [p, p] and [p + 1, hi] is again a bracketed window |
| Selection.SelectRound | src/main/java/com/github/hrothwell/datastructures/array/Selection.java:110-128 | one round of the loop keeps its invariant: same elements as the original array, nothing changed outside [left, right], and the narrowed window is bracketed |
| Selection.SelectFound | src/main/java/com/github/hrothwell/datastructures/array/Selection.java:114-116 | when the window has shrunk to the target position left + k - 1, the element there is the k-th order statistic of the original `ar[left..right]`, with the range arranged around it |
| Selection.Select | src/main/java/com/github/hrothwell/datastructures/array/Selection.java:96-129 | select terminates (the window [left, right] shrinks every round) and returns a k-th order statistic of the original `ar[left..right]`; afterwards it sits at left + k - 1, everything before it in the range sorts no later and everything after it no earlier, the range holds the same elements, and nothing outside the range changes |
| Selection.SelectExample | src/main/java/com/github/hrothwell/datastructures/array/Selection.java:96-98 | select over [5, 3, 8, 1, 9, 2] with k = 3 and the natural order of int returns 3, the third element of the sorted arrangement [1, 2, 3, 5, 8, 9] |

## Left out

- The 2D tree and its nearest-neighbour search are not part of this model. Their classes are only
  imported by the test drivers, and they compute floating-point distances.
- The test drivers (`TwoDTreeTest`, `Main`, in Java and Kotlin) are left out. They consist of random
  input generation, wall-clock timing and printing.
- Java runtime exceptions (`NullPointerException`, `ArrayIndexOutOfBoundsException`) become
  preconditions. Dafny arrays are never null, and indices must be in bounds.
- The raw `Object[]`, the raw `Comparator` and the unchecked casts become a generic element type
  `T` and a comparator function.
- The comparator is a pure, total function. A comparator that throws, has side effects, or breaks
  the `Comparator` contract is not modelled. `SelectPivotIndex` and `Select` require the contract
  (`IsComparator`); `Partition` and `Swap` do not need it.
- Selection.Partition: requires `left <= pivotIndex <= right`. The Java code also accepts any
  in-bounds `pivotIndex`, but a pivot from outside the range would be swapped into the range, and
  that case is not modelled.
- Selection.SelectPivotIndex: requires `ar.length <= 2^31 - 1`; Java array lengths are ints. It
  computes the midpoint without overflow; the written form is modelled separately in JavaInt.
- Selection.Select: requires `left <= right`, `1 <= k <= right - left + 1` and
  `ar.length <= 2^31 - 1`, as its doc comment demands. Its behaviour for a `k` outside that range
  is not modelled.

## Findings

| source | as written | input that shows it | evidently intended | confidence | as-written member | corrected member |
|---|---|---|---|---|---|---|
| src/main/java/com/github/hrothwell/datastructures/array/Selection.java:74 | `int midIndex = (left+right)/2;` adds two ints, which wraps around once left + right exceeds 2^31 - 1 | left = right = 2^30 (both valid indices of an array of length 2^30 + 1): the sum wraps to -2^31 and midIndex becomes -2^30, so `ar[midIndex]` at line 78 throws ArrayIndexOutOfBoundsException | the midpoint of left and right, e.g. `(left + right) >>> 1`, which always lies between them | not executed | JavaInt.MidIndexAsWritten (JavaInt.MidIndexAsWrittenCorrectIff, JavaInt.MidIndexAsWrittenOverflows) | JavaInt.MidIndex |
