/** Division by a number that is not a constant. */
module Numbers {

  lemma Quotient(n: nat, d: nat, q: nat, r: nat)
    requires d > 0 && n == d * q + r && r < d
    ensures n / d == q && n % d == r
  {
    SameQuotient(d, q, r, n / d, n % d);
  }

  lemma {:induction false} SameQuotient(d: nat, q: nat, r: nat, q': nat, r': nat)
    requires r < d && r' < d && d * q + r == d * q' + r'
    ensures q == q' && r == r'
    decreases q
  {
    if q > 0 && q' > 0 {
      assert d * q == d * (q - 1) + d && d * q' == d * (q' - 1) + d;
      SameQuotient(d, q - 1, r, q' - 1, r');
    } else if q > 0 {
      assert d * q == d * (q - 1) + d;
      NonNegative(d, q - 1);
    } else if q' > 0 {
      assert d * q' == d * (q' - 1) + d;
      NonNegative(d, q' - 1);
    }
  }

  lemma NonNegative(d: nat, q: nat)
    ensures d * q >= 0
  {
  }
}
