/**
  Java `int` arithmetic, as far as the selection code depends on it: 32-bit two's-complement
  wrap-around on addition, division that truncates toward zero, and the unsigned shift `>>>`.
  The midpoint `(left + right) / 2` that selectPivotIndex computes is modelled here twice:
  as written (it overflows for large indices) and as evidently intended.
*/
module JavaInt {

  const MIN: int := -0x8000_0000
  const MAX: int := 0x7fff_ffff
  const MODULUS: int := 0x1_0000_0000

  predicate IsInt(x: int) {
    MIN <= x <= MAX
  }

  /** The Java `int` that the mathematical integer x wraps around to. */
  function Wrap(x: int): (r: int)
    ensures IsInt(r)
    ensures (x - r) % MODULUS == 0
    ensures IsInt(x) ==> r == x
  {
    (x - MIN) % MODULUS + MIN
  }

  /** Java's `x / 2` on an int: the quotient is truncated toward zero. */
  function Half(x: int): (r: int)
    requires IsInt(x)
    ensures IsInt(r)
    ensures x >= 0 ==> 0 <= r <= x && x - 1 <= 2 * r <= x
    ensures x < 0 ==> x <= r <= 0 && x <= 2 * r <= x + 1
  {
    if x >= 0 then x / 2 else -((-x) / 2)
  }

  /** Java's `x >>> 1` on an int: x is read as an unsigned 32-bit number and halved. */
  function UnsignedHalf(x: int): (r: int)
    requires IsInt(x)
    ensures 0 <= r <= MAX
    ensures x >= 0 ==> 2 * r <= x <= 2 * r + 1
    ensures x < 0 ==> 2 * r <= x + MODULUS <= 2 * r + 1
  {
    (if x < 0 then x + MODULUS else x) / 2
  }

  /** The midpoint as Selection.java computes it: `(left + right) / 2` in int arithmetic. */
  function MidIndexAsWritten(left: int, right: int): (m: int)
    requires 0 <= left <= MAX && 0 <= right <= MAX
    ensures IsInt(m)
  {
    Half(Wrap(left + right))
  }

  /**
    The written midpoint is the true midpoint exactly when the sum of the two indices fits in an
    int; otherwise it is negative, so `ar[midIndex]` is out of bounds.
  */
  lemma MidIndexAsWrittenCorrectIff(left: int, right: int)
    requires 0 <= left <= MAX && 0 <= right <= MAX
    ensures MidIndexAsWritten(left, right) == (left + right) / 2 <==> left + right <= MAX
    ensures left + right > MAX ==> MidIndexAsWritten(left, right) < 0
  {
    if left + right > MAX {
      assert Wrap(left + right) == left + right - MODULUS;
    }
  }

  /** A concrete pair of valid indices (an array of length 2^30 + 1 has both) for which it fails. */
  lemma MidIndexAsWrittenOverflows()
    ensures MidIndexAsWritten(0x4000_0000, 0x4000_0000) == -0x4000_0000
  {
    assert Wrap(0x8000_0000) == MIN;
  }

  /**
    The midpoint as evidently intended, computed without overflow as `(left + right) >>> 1`:
    it is the mathematical midpoint and lies between the two indices, in either order.
  */
  function MidIndex(left: int, right: int): (m: int)
    requires 0 <= left <= MAX && 0 <= right <= MAX
    ensures m == (left + right) / 2
    ensures left <= right ==> left <= m <= right
    ensures right <= left ==> right <= m <= left
  {
    UnsignedHalf(Wrap(left + right))
  }
}
