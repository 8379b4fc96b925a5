/** Quotients and remainders of products. */
module Arithmetic {

  lemma {:induction false} AtLeast(d: nat, n: nat)
    requires d > 0
    ensures d * n >= n
    decreases d
  {
    if d > 1 {
      AtLeast(d - 1, n);
      assert d * n == (d - 1) * n + n;
    }
  }

  lemma SmallMultiple(d: int, n: nat)
    ensures d == 0 || d * n >= n || d * n <= 0 - n
  {
    if d > 0 {
      AtLeast(d, n);
    } else if d < 0 {
      AtLeast(0 - d, n);
      assert d * n == 0 - (0 - d) * n;
    }
  }

  lemma DivIs(x: nat, n: nat, q: nat, r: nat)
    requires x == q * n + r && r < n
    ensures x / n == q
  {
    SmallMultiple(x / n - q, n);
    assert (x / n - q) * n == r - x % n;
  }

  lemma ModIs(x: nat, n: nat, q: nat, r: nat)
    requires x == q * n + r && r < n
    ensures x % n == r
  {
    SmallMultiple(x / n - q, n);
    assert (x / n - q) * n == r - x % n;
  }
}
