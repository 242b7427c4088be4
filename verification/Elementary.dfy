/** The exponential and logarithm the sources take from their maths library, as a record of two
    functions.  `Valid` is all that is assumed of them: the functional equation, the tangent at
    zero, and that `ln` is a right inverse of `exp` on the positive reals.  Everything else used in
    this project is derived below. */
module Elementary {
  import opened Reals

  datatype Functions = Functions(exp: real -> real, ln: real -> real) {
    ghost predicate AboveTangent(x: real) { exp(x) >= 1.0 + x }

    ghost predicate Multiplicative(x: real, y: real) { exp(x + y) == exp(x) * exp(y) }

    ghost predicate InvertedAt(y: real) { exp(ln(y)) == y }

    ghost predicate Valid() {
      && (forall x: real :: AboveTangent(x))
      && (forall x: real, y: real :: Multiplicative(x, y))
      && (forall y: real | y > 0.0 :: InvertedAt(y))
    }
  }

  lemma ExpZero(m: Functions)
    requires m.Valid()
    ensures m.exp(0.0) == 1.0
  {
    assert m.AboveTangent(0.0) && m.Multiplicative(0.0, 0.0);
  }

  lemma ExpPositive(m: Functions, x: real)
    requires m.Valid()
    ensures m.exp(x) > 0.0
  {
    assert m.Multiplicative(x / 2.0, x / 2.0) && m.Multiplicative(x, -x);
    var half := m.exp(x / 2.0);
    assert m.exp(x) == half * half && half * half >= 0.0;
    ExpZero(m);
    assert x + (-x) == 0.0;
  }

  lemma ExpNegate(m: Functions, x: real)
    requires m.Valid()
    ensures m.exp(x) > 0.0 && m.exp(-x) > 0.0
    ensures m.exp(-x) * m.exp(x) == 1.0
  {
    ExpPositive(m, x);
    ExpPositive(m, -x);
    ExpZero(m);
    assert m.Multiplicative(-x, x) && -x + x == 0.0;
  }

  /** `exp` is strictly increasing. */
  lemma ExpIncreasing(m: Functions, x: real, y: real)
    requires m.Valid() && x < y
    ensures 0.0 < m.exp(x) < m.exp(y)
  {
    ExpPositive(m, x);
    ExpAdd(m, x, y - x);
    assert x + (y - x) == y;
    assert m.AboveTangent(y - x);
    ScaleUp(m.exp(x), m.exp(y - x));
  }

  /** n copies of x. */
  ghost function Multiple(n: nat, x: real): real { n as real * x }

  lemma OneMore(n: nat, x: real)
    requires n > 0
    ensures Multiple(n - 1, x) + x == Multiple(n, x)
  {
    assert (n - 1) as real == n as real - 1.0;
  }

  lemma ScaleUp(a: real, ratio: real)
    requires a > 0.0 && ratio > 1.0
    ensures a * ratio > a
  {
    ProductPositive(a, ratio - 1.0);
    assert a * (ratio - 1.0) == a * ratio - a;
  }

  lemma ExpMonotone(m: Functions, x: real, y: real)
    requires m.Valid() && x <= y
    ensures 0.0 < m.exp(x) <= m.exp(y)
  {
    ExpPositive(m, x);
    if x < y { ExpIncreasing(m, x, y); }
  }

  /** `ln` inverts `exp` on both sides and preserves order. */
  lemma LnExp(m: Functions, x: real)
    requires m.Valid()
    ensures m.ln(m.exp(x)) == x
  {
    ExpPositive(m, x);
    var y := m.ln(m.exp(x));
    assert m.InvertedAt(m.exp(x));
    if y < x { ExpIncreasing(m, y, x); } else if x < y { ExpIncreasing(m, x, y); }
  }

  lemma LnIncreasing(m: Functions, x: real, y: real)
    requires m.Valid() && 0.0 < x < y
    ensures m.ln(x) < m.ln(y)
  {
    assert m.InvertedAt(x) && m.InvertedAt(y);
    if m.ln(x) >= m.ln(y) { ExpMonotone(m, m.ln(y), m.ln(x)); }
  }

  lemma ExpLn(m: Functions, y: real)
    requires m.Valid() && y > 0.0
    ensures m.exp(m.ln(y)) == y
  {
    assert m.InvertedAt(y);
  }

  lemma ExpAdd(m: Functions, x: real, y: real)
    requires m.Valid()
    ensures m.exp(x + y) == m.exp(x) * m.exp(y)
  {
    assert m.Multiplicative(x, y);
  }

  /** A natural power, used for closed forms of loops. */
  ghost function Power(b: real, n: nat): real {
    if n == 0 then 1.0 else Power(b, n - 1) * b
  }

  lemma PowerStep(b: real, n: nat, p: real)
    requires n > 0 && p == Power(b, n - 1)
    ensures p * b == Power(b, n)
  {
  }

  lemma {:induction false} ExpOfMultiple(m: Functions, x: real, n: nat)
    requires m.Valid()
    ensures m.exp(Multiple(n, x)) == Power(m.exp(x), n)
  {
    if n == 0 {
      ExpZero(m);
      assert Multiple(0, x) == 0.0;
    } else {
      ExpOfMultiple(m, x, n - 1);
      ExpAdd(m, Multiple(n - 1, x), x);
      OneMore(n, x);
      PowerStep(m.exp(x), n, m.exp(Multiple(n - 1, x)));
    }
  }

  lemma {:induction false} PowerMonotone(a: real, b: real, n: nat)
    requires 0.0 <= a <= b
    ensures 0.0 <= Power(a, n) <= Power(b, n)
  {
    if n > 0 {
      PowerMonotone(a, b, n - 1);
      var p, q := Power(a, n - 1), Power(b, n - 1);
      assert q * b - p * a == q * (b - a) + (q - p) * a;
    }
  }

  ghost function DecayTerms(w: real, k: real): real {
    k - w * (k * (k - 1.0)) / 2.0
  }

  ghost predicate DecayBelow(d: real, w: real, k: real)
    requires w > 0.0
  {
    1.0 - d >= w / (1.0 + w) * DecayTerms(w, k)
  }

  /** Summing the decay over k pieces of w, each bounded below by the tangent. */
  lemma {:induction false} DecaySum(m: Functions, w: real, k: nat)
    requires m.Valid() && w > 0.0
    ensures DecayBelow(m.exp(-Multiple(k, w)), w, k as real)
  {
    if k == 0 {
      ExpZero(m);
      assert Multiple(0, w) == 0.0;
      assert DecayTerms(w, 0.0) == 0.0;
    } else {
      DecaySum(m, w, k - 1);
      OneMore(k, w);
      DecayTail(m, Multiple(k - 1, w), w);
      DecayCombine(m.exp(-Multiple(k - 1, w)), m.exp(-w), w, (k - 1) as real);
      assert -Multiple(k, w) == -Multiple(k - 1, w) + -w;
    }
  }

  lemma DecayTail(m: Functions, t: real, w: real)
    requires m.Valid() && w > 0.0
    ensures m.exp(-t + -w) == m.exp(-t) * m.exp(-w)
    ensures m.exp(-t) > 0.0 && m.exp(-t) >= 1.0 - t
    ensures 1.0 - m.exp(-w) >= w / (1.0 + w)
  {
    ExpAdd(m, -t, -w);
    assert m.AboveTangent(-t) && m.AboveTangent(w);
    ExpPositive(m, -t);
    ExpNegate(m, w);
    DecayOneStep(m.exp(-w), m.exp(w), w);
  }

  lemma DecayCombine(d: real, s: real, w: real, j: real)
    requires w > 0.0 && d > 0.0 && DecayBelow(d, w, j)
    requires d >= 1.0 - j * w && 1.0 - s >= w / (1.0 + w)
    ensures DecayBelow(d * s, w, j + 1.0)
  {
    var c := w / (1.0 + w);
    assert c > 0.0;
    DecayFactor(d, 1.0 - j * w, 1.0 - s, c);
    assert 1.0 - d * s == (1.0 - d) + d * (1.0 - s);
    assert DecayTerms(w, j) + (1.0 - j * w) == DecayTerms(w, j + 1.0);
    assert c * DecayTerms(w, j) + (1.0 - j * w) * c == c * (DecayTerms(w, j) + (1.0 - j * w));
  }

  lemma DecayOneStep(s: real, e: real, w: real)
    requires w > 0.0 && s > 0.0 && s * e == 1.0 && e >= 1.0 + w
    ensures 1.0 - s >= w / (1.0 + w)
  {
    assert s * (1.0 + w) <= 1.0 by {
      assert s * e - s * (1.0 + w) == s * (e - (1.0 + w));
    }
    assert s <= 1.0 / (1.0 + w);
    assert 1.0 - 1.0 / (1.0 + w) == w / (1.0 + w);
  }

  lemma DecayFactor(d: real, t: real, a: real, c: real)
    requires d > 0.0 && d >= t && a >= c && c > 0.0
    ensures d * a >= t * c
  {
    assert d * a - t * c == d * (a - c) + (d - t) * c;
  }

  /** The second-order bound on the decay, derived from the tangent by subdividing. */
  lemma DecayQuadratic(m: Functions, z: real)
    requires m.Valid() && z >= 0.0
    ensures m.exp(-z) <= 1.0 - z + z * z / 2.0
  {
    var bound, decay := 1.0 - z + z * z / 2.0, m.exp(-z);
    if z == 0.0 {
      ExpZero(m);
      assert -z == 0.0;
    } else if bound < decay {
      var gap := decay - bound;
      var n := Pieces(z, gap);
      DecayPieces(m, z, n);
      DecayLimit(z, n as real);
      PiecesWithinGap(z, n as real, gap);
      assert false;
    }
  }

  lemma Pieces(z: real, gap: real) returns (n: nat)
    requires z > 0.0 && gap > 0.0
    ensures n >= 1 && n as real * gap > z * z
  {
    var a := z * z;
    ProductPositive(z, z);
    var q := a / gap;
    assert q * gap == a;
    if q <= 0.0 { assert q * gap <= 0.0; }
    n := q.Floor + 1;
    var count := n as real;
    assert count > q;
    ProductPositive(count - q, gap);
    DistributeMinus(count, q, gap);
  }

  lemma DecayPieces(m: Functions, z: real, n: nat)
    requires m.Valid() && z > 0.0 && n >= 1
    ensures 1.0 - m.exp(-z) >= z / (n as real + z) * (n as real - z * (n as real - 1.0) / 2.0)
  {
    var w := z / n as real;
    assert Multiple(n, w) == z;
    DecaySum(m, w, n);
    assert w / (1.0 + w) == z / (n as real + z);
    var k := n as real;
    assert w * (k * (k - 1.0)) == (k * w) * (k - 1.0);
  }

  lemma DecayLimit(z: real, n: real)
    requires z > 0.0 && n >= 1.0
    ensures z - z * z / 2.0 - z / (n + z) * (n - z * (n - 1.0) / 2.0) == z * z * (1.0 - z) / (2.0 * (n + z))
  {
    var p := n + z;
    var q := z / p;
    assert q * p == z;
    assert z - z * z / 2.0 == q * p * (1.0 - z / 2.0);
    assert p * (1.0 - z / 2.0) - (n - z * (n - 1.0) / 2.0) == z * (1.0 - z) / 2.0;
    assert z - z * z / 2.0 - q * (n - z * (n - 1.0) / 2.0) == q * (z * (1.0 - z) / 2.0);
    assert z * z * (1.0 - z) / (2.0 * p) == (q * p) * z * (1.0 - z) / (2.0 * p);
    assert (q * p) * z * (1.0 - z) == (q * z * (1.0 - z) / 2.0) * (2.0 * p);
  }

  lemma PiecesWithinGap(z: real, n: real, gap: real)
    requires z > 0.0 && n >= 1.0 && gap > 0.0 && n * gap > z * z
    ensures z * z * (1.0 - z) / (2.0 * (n + z)) < gap
  {
    var p := 2.0 * (n + z);
    var a := z * z * (1.0 - z);
    assert gap * p == 2.0 * (gap * n) + 2.0 * (gap * z);
    ProductPositive(gap, z);
    ProductPositive(z, z);
    ProductPositive(z * z, z);
    assert a == z * z - z * z * z;
    assert a < gap * p;
    assert (a / p) * p == a;
  }
}
