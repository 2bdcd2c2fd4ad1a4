/** `Math.round((part / whole) * 100)`, the rounded percentage both the
    grid footer and the dashboard display, computed exactly on integers. */
module Percent {

  /** The percentage of `part` in `whole`, rounded to the nearest integer
      with halves rounded up as `Math.round` does for non-negative values. */
  function RoundPercent(part: nat, whole: nat): (r: nat)
    requires whole > 0
    ensures 2 * whole * r <= 200 * part + whole < 2 * whole * (r + 1)
    ensures part <= whole ==> r <= 100
    ensures part == 0 ==> r == 0
    ensures part == whole ==> r == 100
  {
    var r := (200 * part + whole) / (2 * whole);
    Bounds(part, whole, r);
    r
  }

  /** The facts about the quotient that the contract of `RoundPercent`
      needs. */
  lemma Bounds(part: nat, whole: nat, r: int)
    requires whole > 0 && r == (200 * part + whole) / (2 * whole)
    ensures r >= 0
    ensures 2 * whole * r <= 200 * part + whole < 2 * whole * (r + 1)
    ensures part <= whole ==> r <= 100
    ensures part == 0 ==> r == 0
    ensures part == whole ==> r == 100
  {
    var n := 200 * part + whole;
    var q := 2 * whole;
    QuotientBounds(n, q);
    assert q * r <= n < q * r + q;
    assert q * (r + 1) == q * r + q;
    if part <= whole {
      assert n < q * 101;
      if r > 100 {
        ScaleMonotone(q, 101, r);
      }
    }
    if part == 0 && r > 0 {
      ScaleMonotone(q, 1, r);
    }
    if part == whole {
      assert n == q * 100 + whole;
      if r < 100 {
        ScaleMonotone(q, r + 1, 100);
      }
    }
  }

  /** Euclidean division of a natural number: the quotient is the largest
      multiple of the divisor that does not exceed it. */
  lemma QuotientBounds(n: nat, q: nat)
    requires q > 0
    ensures n / q >= 0
    ensures q * (n / q) <= n < q * (n / q) + q
  {
  }

  /** Multiplying by a natural number keeps the order. */
  lemma ScaleMonotone(q: nat, a: int, b: int)
    requires a <= b
    ensures q * a <= q * b
  {
    assert q * b - q * a == q * (b - a);
  }

}
