// Division facts the solver does not find on its own.
module Arithmetic {
  // The least k with a <= k * d.
  function CeilDiv(a: nat, d: nat): (k: nat)
    requires d > 0
  {
    (a + d - 1) / d
  }

  function Quotient(a: nat, d: nat): nat
    requires d > 0
  {
    a / d
  }

  lemma MulMonotone(a: int, b: int, c: int)
    requires a <= b && c >= 0
    ensures a * c <= b * c
  {
  }

  lemma DivFloor(a: int, d: int)
    requires d > 0
    ensures (a / d) * d <= a < (a / d + 1) * d
  {
  }

  // a / d is the only q with q * d <= a < (q + 1) * d.
  lemma DivIs(a: int, d: int, q: int)
    requires d > 0 && q * d <= a < (q + 1) * d
    ensures a / d == q
  {
    DivFloor(a, d);
    var p := a / d;
    if p < q {
      MulMonotone(p + 1, q, d);
    } else if p > q {
      MulMonotone(q + 1, p, d);
    }
  }

  lemma DivRange(a: int, d: int, lo: int, hi: int)
    requires d > 0 && lo * d <= a < hi * d
    ensures lo <= a / d < hi
  {
    DivFloor(a, d);
    if a / d < lo { MulMonotone(a / d + 1, lo, d); }
    if a / d >= hi { MulMonotone(hi, a / d, d); }
  }

  lemma DivMonotone(a: int, b: int, d: int)
    requires d > 0 && a <= b
    ensures a / d <= b / d
  {
    DivFloor(a, d);
    DivFloor(b, d);
    if a / d > b / d {
      MulMonotone(b / d + 1, a / d, d);
    }
  }

  lemma CeilDivBounds(a: nat, d: nat)
    requires d > 0
    ensures CeilDiv(a, d) * d < a + d && a <= CeilDiv(a, d) * d
  {
    DivFloor(a + d - 1, d);
    assert (CeilDiv(a, d) + 1) * d == CeilDiv(a, d) * d + d;
  }

  lemma SameDivMod(a: nat, b: nat, d: nat)
    requires d > 0 && a / d == b / d && a % d == b % d
    ensures a == b
  {
    assert a == a / d * d + a % d && b == b / d * d + b % d;
  }
}
