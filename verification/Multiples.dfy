/** Facts about multiples of a variable divisor, which the solver does not find unaided. */
module Multiples {

  lemma AtLeastOne(d: nat, k: int)
    requires k >= 1
    ensures d * k >= d
  {
    assert d * k == d + d * (k - 1);
  }

  lemma Positive(d: nat, k: int)
    requires d * k > 0
    ensures k >= 1
  {
  }

  /** Multiples of d, as products and as remainders. */
  lemma Multiple(d: nat, q: nat)
    requires d > 0
    ensures (d * q) % d == 0
  {
    var x := d * q;
    assert x == d * (x / d) + x % d;
    assert d * (q - x / d) == x % d;
    if q > x / d { AtLeastOne(d, q - x / d); }
    if q < x / d { AtLeastOne(d, x / d - q); }
  }

  lemma MultiplesApart(d: nat, a: nat, b: nat)
    requires d > 0 && a % d == 0 && b % d == 0 && a < b
    ensures a + d <= b
  {
    assert b - a == d * (b / d - a / d);
    Positive(d, b / d - a / d);
    AtLeastOne(d, b / d - a / d);
  }

  lemma SumOfMultiples(d: nat, a: nat, b: nat)
    requires d > 0 && a % d == 0 && b % d == 0
    ensures (a + b) % d == 0
    ensures a >= b ==> (a - b) % d == 0
  {
    assert a + b == d * (a / d + b / d);
    Multiple(d, a / d + b / d);
    if a >= b {
      assert a - b == d * (a / d - b / d);
      if a / d < b / d { AtLeastOne(d, b / d - a / d); }
      Multiple(d, a / d - b / d);
    }
  }

  /** A multiple of a multiple. */
  lemma MultipleOfMultiple(d: nat, m: nat, q: nat)
    requires d > 0 && m % d == 0
    ensures (m * q) % d == 0
  {
    assert m * q == d * (m / d * q);
    Multiple(d, m / d * q);
  }

  lemma MultipleThrough(d: nat, m: nat, a: nat)
    requires d > 0 && m > 0 && m % d == 0 && a % m == 0
    ensures a % d == 0
  {
    MultipleOfMultiple(d, m, a / m);
    assert a == m * (a / m);
  }

  /** Quotient and remainder are the only way to write a number like this. */
  lemma Split(q: nat, d: nat, r: nat)
    requires r < d
    ensures (q * d + r) / d == q && (q * d + r) % d == r
  {
    var n := q * d + r;
    assert d * (q - n / d) == n % d - r;
    if q > n / d { AtLeastOne(d, q - n / d); }
    if q < n / d { AtLeastOne(d, n / d - q); }
  }
}
