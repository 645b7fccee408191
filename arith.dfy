/** Java's integer division, which the engine uses to turn pixel coordinates into
    grid indices. Java truncates the quotient toward zero; Dafny's `/` is Euclidean,
    so the two differ for a negative dividend. Every divisor in the engine is the
    (positive) cell length. */
module Arith {

  /** `a / d` as Java evaluates it, for a positive divisor. */
  function TruncDiv(a: int, d: int): (q: int)
    requires 0 < d
    ensures 0 <= a ==> 0 <= q && q * d <= a < q * d + d
    ensures a < 0 ==> q <= 0 && q * d - d < a <= q * d
  {
    if 0 <= a then a / d else -((-a) / d)
  }

  /** Scaling by a positive factor preserves order, in both directions. */
  lemma MulMonotone(a: int, b: int, d: int)
    requires 0 < d
    ensures a <= b <==> a * d <= b * d
  {
    assert b * d - a * d == (b - a) * d;
    if a <= b {
      assert 0 <= (b - a) * d;
    } else {
      assert 0 < (a - b) * d;
    }
  }

  /** A pixel coordinate that is an exact multiple of the cell length maps back to its index. */
  lemma MulDivCancel(k: int, d: int)
    requires 0 < d
    ensures TruncDiv(k * d, d) == k
  {
    var q := TruncDiv(k * d, d);
    assert (q + 1) * d == q * d + d;
    assert (q - 1) * d == q * d - d;
    MulMonotone(k, 0, d);
    MulMonotone(q, k, d);
    MulMonotone(k, q, d);
    MulMonotone(k, q + 1, d);
    MulMonotone(q - 1, k, d);
    MulMonotone(q + 1, k, d);
  }

  /** A non-negative dividend between q * d and q * d + d has quotient q. */
  lemma DivUnique(a: int, d: int, q: int)
    requires 0 < d && 0 <= q && q * d <= a < q * d + d
    ensures TruncDiv(a, d) == q
  {
    var t := TruncDiv(a, d);
    assert 0 <= q * d by { MulMonotone(0, q, d); }
    assert (q + 1) * d == q * d + d;
    assert (t + 1) * d == t * d + d;
    MulMonotone(t, q, d);
    MulMonotone(q, t, d);
    MulMonotone(t + 1, q, d);
    MulMonotone(q + 1, t, d);
  }

  /** A dividend of either sign less than one divisor away from 0 has quotient 0. */
  lemma TruncDivSmall(a: int, d: int)
    requires 0 < d && -d < a < d
    ensures TruncDiv(a, d) == 0
  {
    if 0 <= a {
      DivUnique(a, d, 0);
    } else {
      DivUnique(-a, d, 0);
    }
  }
}
