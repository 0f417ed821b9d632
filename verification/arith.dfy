/** Integer arithmetic the layouts and the searches rest on. */
module Arith {
  lemma DivMod(x: nat, d: nat)
    requires d > 0
    ensures x == (x / d) * d + x % d && x % d < d
  {}

  lemma Distribute(a: int, e: int, c: int)
    ensures (a + e) * c == a * c + e * c
  {}

  lemma NonNegativeProduct(e: nat, c: nat)
    ensures e * c >= 0
  {}

  lemma Regroup(c: nat, k: nat, r: nat)
    ensures c * k >= 0 && k * r >= 0 && c * (k * r) == (c * k) * r
  {}

  /** Products with a common factor keep order, strictly and by a whole factor. */
  lemma ProductOrder(a: nat, b: nat, c: nat)
    ensures a <= b ==> a * c <= b * c
    ensures a < b ==> a * c + c <= b * c
  {
    if a < b {
      Distribute(a, 1, c);
      Distribute(a + 1, b - a - 1, c);
      NonNegativeProduct(b - a - 1, c);
    }
  }

  /** Quotients are determined by their bounds. */
  lemma QuotientIs(x: nat, d: nat, q: nat)
    requires d > 0 && q * d <= x < q * d + d
    ensures x / d == q && x % d == x - q * d
  {
    DivMod(x, d);
    ProductOrder(x / d, q, d);
    ProductOrder(q, x / d, d);
  }

  /** A natural quotient, for terms that need one. */
  function Quotient(x: nat, d: nat): nat
    requires d > 0
  {
    x / d
  }

  function CeilDiv(a: nat, b: nat): (q: nat)
    requires b > 0
    ensures a <= q * b < a + b
  {
    DivMod(a + b - 1, b);
    (a + b - 1) / b
  }

  /** `block < ceil(n / per)` exactly when the block's first id is below `n`. */
  lemma BelowCeil(block: nat, n: nat, per: nat)
    requires per > 0
    ensures block < CeilDiv(n, per) <==> block * per < n
  {
    var q := CeilDiv(n, per);
    ProductOrder(block, q, per);
    ProductOrder(q, block, per);
  }

  function Pow2(e: nat): (p: nat)
    ensures p > 0
  {
    if e == 0 then 1 else 2 * Pow2(e - 1)
  }

  lemma SameSizeSubset<T>(a: set<T>, b: set<T>)
    requires a <= b && |a| == |b|
    ensures a == b
  {
    assert b == a + (b - a);
    assert |b - a| == 0;
  }
}
