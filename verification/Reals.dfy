/** Order facts about products and quotients of reals, stated one at a time. */
module Reals {

  /** A product kept under a name, so that equal factors give equal products. */
  function Times(a: real, b: real): real { a * b }

  lemma ProductPositive(a: real, b: real)
    requires a > 0.0 && b > 0.0
    ensures a * b > 0.0
  {
  }

  lemma DistributeMinus(a: real, b: real, c: real)
    ensures (a - b) * c == a * c - b * c
    ensures Times(a - b, c) == Times(a, c) - Times(b, c)
  {
  }

  lemma ScaleMonotone(a: real, b: real, c: real)
    requires a <= b && c >= 0.0
    ensures a * c <= b * c && c * a <= c * b
    ensures Times(a, c) <= Times(b, c) && Times(c, a) <= Times(c, b)
  {
  }

  lemma ScaleIncreasing(a: real, b: real, c: real)
    requires a < b && c > 0.0
    ensures a * c < b * c && c * a < c * b
    ensures Times(a, c) < Times(b, c) && Times(c, a) < Times(c, b)
  {
    ProductPositive(b - a, c);
  }

  lemma QuotientSign(a: real, b: real)
    requires b > 0.0
    ensures a > 0.0 ==> a / b > 0.0
    ensures a >= 0.0 ==> a / b >= 0.0
    ensures a <= 0.0 ==> a / b <= 0.0
    ensures (a / b) * b == a
  {
  }

  lemma QuotientOfItself(a: real)
    requires a > 0.0
    ensures a / a == 1.0
  {
  }

  lemma QuotientMinusOne(a: real, b: real)
    requires b > 0.0
    ensures a / b - 1.0 == (a - b) / b
  {
    QuotientOfItself(b);
    assert (a - b) / b == a / b - b / b;
  }

  lemma FractionShrinks(a: real, f: real)
    requires a >= 0.0 && 0.0 <= f <= 1.0
    ensures 0.0 <= Times(a, f) <= a
  {
    ScaleMonotone(f, 1.0, a);
  }

  lemma QuotientMonotone(a: real, b: real, d: real)
    requires d > 0.0 && a <= b
    ensures a / d <= b / d
    ensures a < b ==> a / d < b / d
  {
    QuotientSign(b - a, d);
    assert b / d - a / d == (b - a) / d;
  }

  /** Dividing a non-negative amount by more gives no more. */
  lemma QuotientAntitone(a: real, b: real, n: real)
    requires 0.0 < a <= b && n >= 0.0
    ensures 0.0 <= n / b <= n / a
    ensures a < b && n > 0.0 ==> n / b < n / a
  {
    QuotientSign(n, a);
    QuotientSign(n, b);
    var p, q := n / a, n / b;
    CompareFactors(p, a, q, b, n);
  }

  lemma CompareFactors(p: real, a: real, q: real, b: real, n: real)
    requires 0.0 < a <= b && p * a == n && q * b == n && p >= 0.0 && q >= 0.0
    ensures q <= p
    ensures a < b && n > 0.0 ==> q < p
  {
    assert (p - q) * a == q * (b - a);
    assert q * (b - a) >= 0.0;
  }

  lemma QuotientCompare(x: real, a: real, d: real)
    requires d > 0.0
    ensures x / d <= a <==> x <= Times(a, d)
    ensures x / d < a <==> x < Times(a, d)
  {
    var q := x / d;
    assert q * d == x;
    if q < a { ScaleIncreasing(q, a, d); } else { ScaleMonotone(a, q, d); }
    if q <= a { ScaleMonotone(q, a, d); } else { ScaleIncreasing(a, q, d); }
  }
}
