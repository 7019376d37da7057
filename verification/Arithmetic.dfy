/** Facts about products and Euclidean quotients that the other modules call by name. */
module Arithmetic {

  lemma MulMonotone(x: int, y: int, z: nat)
    requires x <= y
    ensures x * z <= y * z
  {
  }

  lemma DivBelow(x: int, q: int, d: nat)
    requires d > 0 && x < q * d
    ensures x / d < q
  {
  }

  lemma DivAtLeast(x: int, q: int, d: nat)
    requires d > 0 && q * d <= x
    ensures q <= x / d
  {
    if x / d < q {
      MulMonotone(x / d + 1, q, d);
    }
  }

  lemma DivMonotone(x: int, y: int, d: nat)
    requires d > 0 && x <= y
    ensures x / d <= y / d
  {
    DivBelow(x, y / d + 1, d);
  }

  /** A quotient is known once its floor bounds are. */
  lemma DivUnique(x: int, q: int, d: nat)
    requires d > 0 && q * d <= x < (q + 1) * d
    ensures x / d == q
  {
    DivAtLeast(x, q, d);
    DivBelow(x, q + 1, d);
  }

  /** The quotient rounded up. */
  function CeilDiv(a: int, b: nat): int
    requires b > 0
  {
    -((-a) / b)
  }

  /** `CeilDiv` is the least multiple count that reaches `a`. */
  lemma CeilDivIsLeast(a: int, b: nat, k: int)
    requires b > 0
    ensures CeilDiv(a, b) <= k <==> a <= k * b
  {
    if a <= k * b {
      DivAtLeast(-a, -k, b);
    } else {
      DivBelow(-a, -k, b);
    }
  }
}
