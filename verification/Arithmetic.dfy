/** Division and remainder of integers, where the solver needs help with products. */
module Arithmetic {

  /** Quotient and remainder are the only pair with these two properties. */
  lemma DivModUnique(n: int, d: int, q: int, r: int)
    requires d > 0 && 0 <= r < d && n == q * d + r
    ensures n / d == q && n % d == r
  {
    var k := n / d - q;
    assert r == k * d + n % d;
    assert k < 1 by {
      if k >= 1 { MulMonotone(1, k, d); }
    }
    assert k > -1 by {
      if k <= -1 { MulMonotone(k, -1, d); }
    }
  }

  lemma MulMonotone(x: int, y: int, d: int)
    requires x <= y && d >= 0
    ensures x * d <= y * d
  {
    assert (y - x) * d >= 0;
  }

  /** Adding a multiple of the modulus changes nothing. */
  lemma ModAddMultiple(x: int, k: int, d: int)
    requires d > 0
    ensures (x + k * d) % d == x % d
  {
    assert x + k * d == (x / d + k) * d + x % d;
    DivModUnique(x + k * d, d, x / d + k, x % d);
  }

  lemma ModAdd(x: int, y: int, d: int)
    requires d > 0
    ensures (x % d + y) % d == (x + y) % d
  {
    ModAddMultiple(x % d + y, x / d, d);
    assert x % d + y + x / d * d == x + y;
  }

  /** A product can be reduced before it is multiplied. */
  lemma ModMul(x: int, k: int, d: int)
    requires d > 0
    ensures x % d * k % d == x * k % d
  {
    assert x * k == x % d * k + (x / d * k) * d by {
      assert x * k == (x / d * d + x % d) * k;
    }
    ModAddMultiple(x % d * k, x / d * k, d);
  }
}
