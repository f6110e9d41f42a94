/** Facts about products and quotients that the solver does not find by itself. */
module Arithmetic {
  lemma MulMonotone(a: int, b: int, d: nat)
    requires a <= b
    ensures a * d <= b * d
  {
    assert (b - a) * d >= 0;
  }

  lemma DivBelow(i: nat, d: nat, q: nat)
    requires d > 0 && i < q * d
    ensures i / d < q
  {
    if i / d >= q {
      MulMonotone(q, i / d, d);
      assert false;
    }
  }

  lemma DivExact(c: nat, d: nat, r: nat)
    requires r < d
    ensures (c * d + r) / d == c && (c * d + r) % d == r
  {
    var i := c * d + r;
    if i / d < c {
      MulMonotone(i / d + 1, c, d);
      assert false;
    }
    if i / d > c {
      MulMonotone(c + 1, i / d, d);
      assert false;
    }
  }

  lemma ModSmall(x: nat, d: nat)
    requires x < d
    ensures x % d == x
  {
  }
}
