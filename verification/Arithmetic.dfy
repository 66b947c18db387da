/**
  Multiples and quotients.
 */
module Arithmetic {
  lemma MulGrows(a: nat, b: nat, r: nat)
    requires a <= b
    ensures a * r <= b * r
  {
    assert b * r == a * r + (b - a) * r;
  }

  lemma Multiples(q: nat, k: nat, r: nat)
    ensures q < k ==> q * r + r <= k * r
  {
    if q < k {
      MulGrows(q + 1, k, r);
      assert (q + 1) * r == q * r + r;
    }
  }

  /** Quotient q stands for the r numbers from q * r on. */
  lemma QuotientIff(b: nat, q: nat, r: nat)
    requires 0 < r
    ensures b / r == q <==> q * r <= b < q * r + r
  {
    var k := b / r;
    assert b == k * r + b % r;
    Multiples(k, q, r);
    Multiples(q, k, r);
  }

  lemma QuotientMono(a: nat, b: nat, r: nat)
    requires 0 < r && a <= b
    ensures a / r <= b / r
  {
    QuotientIff(a, a / r, r);
    QuotientIff(b, b / r, r);
    Multiples(b / r, a / r, r);
  }
}
