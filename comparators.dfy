/**
  The external comparator of Selection.java. A comparator is a total function from two elements
  to an int whose sign orders them, as `java.util.Comparator.compare` does; the selection code
  only ever tests that sign.
*/
module Comparators {

  /** x sorts no later than y under cmp: the test `compare(x, y) <= 0`. */
  predicate Le<T>(cmp: (T, T) -> int, x: T, y: T) {
    cmp(x, y) <= 0
  }

  /** compare(x, y) and compare(y, x) have opposite signs (or are both 0). */
  predicate AntisymmetricAt<T>(cmp: (T, T) -> int, x: T, y: T) {
    cmp(x, y) <= 0 <==> cmp(y, x) >= 0
  }

  /** Le is transitive on the triple x, y, z. */
  predicate TransitiveAt<T>(cmp: (T, T) -> int, x: T, y: T, z: T) {
    Le(cmp, x, y) && Le(cmp, y, z) ==> Le(cmp, x, z)
  }

  /**
    The part of the Comparator contract the algorithm relies on: compare(x, y) and compare(y, x)
    have opposite signs, and "sorts no later than" is transitive. Together these make Le a total
    preorder whose equivalence classes are the pairs that compare as 0. Both properties are used
    through the lemmas below only, which keeps them out of the way of unrelated proofs.
  */
  ghost predicate IsComparator<T(!new)>(cmp: (T, T) -> int) {
    && (forall x, y {:trigger AntisymmetricAt(cmp, x, y)} :: AntisymmetricAt(cmp, x, y))
    && (forall x, y, z {:trigger TransitiveAt(cmp, x, y, z)} :: TransitiveAt(cmp, x, y, z))
  }

  /** A comparator that never reports distinct elements as equal (a total order, not only a preorder). */
  ghost predicate Separates<T(!new)>(cmp: (T, T) -> int) {
    forall x, y :: cmp(x, y) == 0 ==> x == y
  }

  /** m lies between x and y: one of them sorts no later than m, and m sorts no later than the other. */
  predicate Between<T>(cmp: (T, T) -> int, x: T, m: T, y: T) {
    (Le(cmp, x, m) && Le(cmp, m, y)) || (Le(cmp, y, m) && Le(cmp, m, x))
  }

  /** Every element compares as 0 with itself. */
  lemma Reflexive<T(!new)>(cmp: (T, T) -> int, x: T)
    requires IsComparator(cmp)
    ensures cmp(x, x) == 0
  {
    assert AntisymmetricAt(cmp, x, x);
  }

  /** x sorts no later than y exactly when compare(y, x) is non-negative. */
  lemma Antisymmetric<T(!new)>(cmp: (T, T) -> int, x: T, y: T)
    requires IsComparator(cmp)
    ensures Le(cmp, x, y) <==> cmp(y, x) >= 0
  {
    assert AntisymmetricAt(cmp, x, y);
  }

  /** Any two elements are ordered one way or the other; a failed `<= 0` test means "strictly after". */
  lemma Total<T(!new)>(cmp: (T, T) -> int, x: T, y: T)
    requires IsComparator(cmp)
    ensures !Le(cmp, x, y) ==> Le(cmp, y, x) && cmp(y, x) < 0
  {
    assert AntisymmetricAt(cmp, x, y);
  }

  lemma Transitive<T(!new)>(cmp: (T, T) -> int, x: T, y: T, z: T)
    requires IsComparator(cmp)
    requires Le(cmp, x, y) && Le(cmp, y, z)
    ensures Le(cmp, x, z)
  {
    assert TransitiveAt(cmp, x, y, z);
  }

  /** x sorts no later than y and y strictly before z, so x sorts strictly before z. */
  lemma TransitiveStrict<T(!new)>(cmp: (T, T) -> int, x: T, y: T, z: T)
    requires IsComparator(cmp)
    requires Le(cmp, x, y) && cmp(y, z) < 0
    ensures cmp(x, z) < 0
  {
    if cmp(x, z) >= 0 {
      Antisymmetric(cmp, z, x);
      Transitive(cmp, z, x, y);
      Antisymmetric(cmp, z, y);
    }
  }

  /** The natural order on int, as `Integer.compare` computes it. */
  function NaturalOrder(x: int, y: int): (r: int)
    ensures r < 0 <==> x < y
    ensures r == 0 <==> x == y
    ensures r > 0 <==> x > y
  {
    if x < y then -1 else if x == y then 0 else 1
  }

  lemma NaturalOrderIsComparator()
    ensures IsComparator(NaturalOrder)
    ensures Separates(NaturalOrder)
  {
    forall x: int, y: int
      ensures AntisymmetricAt(NaturalOrder, x, y)
    {
    }
    forall x: int, y: int, z: int
      ensures TransitiveAt(NaturalOrder, x, y, z)
    {
    }
  }
}
