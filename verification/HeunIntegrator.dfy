/** The subdivided trapezoidal (Heun) integrator the observer is cross-checked with, solved in closed
    form and compared with the exact step (fuse_reference_oracle.c). */
module HeunIntegrator {
  import opened Reals
  import opened Elementary

  datatype Outcome = NotANumber | Value(x: real)

  /** The factor one Heun step applies to the distance from equilibrium, for z = h/tau. */
  function Factor(z: real): real { 1.0 - z + z * z / 2.0 }

  ghost function Closed(x0: real, e: real, z: real, n: nat): real { e + Times(x0 - e, Power(Factor(z), n)) }

  lemma ClosedStep(x0: real, e: real, z: real, n: nat, x: real)
    requires x == Closed(x0, e, z, n)
    ensures e + (x - e) * Factor(z) == Closed(x0, e, z, n + 1)
  {
    var p := Power(Factor(z), n);
    assert Power(Factor(z), n + 1) == p * Factor(z);
    assert x - e == (x0 - e) * p;
    assert ((x0 - e) * p) * Factor(z) == (x0 - e) * (p * Factor(z));
  }

  /** One predictor-corrector step multiplies the distance from q*tau by Factor(h/tau). */
  lemma HeunStep(x: real, q: real, h: real, tau: real)
    requires tau > 0.0
    ensures var f0 := -x / tau + q;
            var f1 := -(x + h * f0) / tau + q;
            x + 0.5 * h * (f0 + f1) == q * tau + (x - q * tau) * Factor(h / tau)
  {
    var e, z := q * tau, h / tau;
    var f0 := -x / tau + q;
    DistanceRate(x, q, tau);
    var y := x + h * f0;
    DistanceRate(y, q, tau);
    var f1 := -y / tau + q;
    var a, b := (e - x) / tau, (e - y) / tau;
    assert f0 == a && f1 == b;
    ShiftQuotient(h, e - x, tau);
    ShiftQuotient(h, e - y, tau);
    assert h * a == z * (e - x);
    assert h * b == z * (e - y);
    assert e - y == (e - x) - z * (e - x);
    HeunAlgebra(x, e, z, h * a, h * b);
    assert 0.5 * h * (f0 + f1) == 0.5 * (h * a + h * b);
  }

  lemma DistanceRate(x: real, q: real, tau: real)
    requires tau > 0.0
    ensures -x / tau + q == (q * tau - x) / tau
  {
    assert (q * tau) / tau == q;
    assert (q * tau - x) / tau == (q * tau) / tau + -x / tau;
  }

  lemma ShiftQuotient(h: real, a: real, tau: real)
    requires tau > 0.0
    ensures h * (a / tau) == (h / tau) * a
  {
  }

  lemma HeunAlgebra(x: real, e: real, z: real, ha: real, hb: real)
    requires ha == z * (e - x) && hb == z * ((e - x) - z * (e - x))
    ensures x + 0.5 * (ha + hb) == e + (x - e) * Factor(z)
  {
  }

  lemma NextIsClosed(x0: real, q: real, h: real, tau: real, n: nat, x: real, f0: real, f1: real, y: real)
    requires tau > 0.0 && x == Closed(x0, q * tau, h / tau, n)
    requires f0 == -x / tau + q && f1 == -(x + h * f0) / tau + q && y == x + 0.5 * h * (f0 + f1)
    ensures y == Closed(x0, q * tau, h / tau, n + 1)
  {
    HeunStep(x, q, h, tau);
    ClosedStep(x0, q * tau, h / tau, n, x);
  }

  method Integrate(x0: real, q: real, dt: real, tau: real, n: nat) returns (r: Outcome)
    ensures r.Value? <==> x0 >= 0.0 && q >= 0.0 && dt >= 0.0 && tau > 0.0 && n > 0
    ensures r.Value? ==> r.x == Closed(x0, q * tau, dt / n as real / tau, n)
  {
    if x0 < 0.0 || q < 0.0 || dt < 0.0 || tau <= 0.0 || n == 0 { return NotANumber; }
    var h, x := dt / n as real, x0;
    for k := 0 to n
      invariant x == Closed(x0, q * tau, h / tau, k)
    {
      var f0 := -x / tau + q;
      var predicted := x + h * f0;
      var f1 := -predicted / tau + q;
      NextIsClosed(x0, q, h, tau, k, x, f0, f1, x + 0.5 * h * (f0 + f1));
      x := x + 0.5 * h * (f0 + f1);
    }
    r := Value(x);
  }

  // ----- what the closed form gives -----

  lemma FactorRange(z: real)
    requires z >= 0.0
    ensures Factor(z) > 0.0 && (Factor(z) <= 1.0 <==> z <= 2.0)
    ensures z > 0.0 && z < 2.0 ==> Factor(z) < 1.0
  {
    assert Factor(z) == (1.0 - z) * (1.0 - z) / 2.0 + 0.5;
    assert (1.0 - z) * (1.0 - z) >= 0.0;
    assert 1.0 - Factor(z) == z * (2.0 - z) / 2.0;
    if z > 2.0 { ProductPositive(z, z - 2.0); }
    if 0.0 < z < 2.0 { ProductPositive(z, 2.0 - z); }
  }

  lemma {:induction false} PowerRange(p: real, n: nat)
    requires p > 0.0
    ensures Power(p, n) > 0.0
    ensures p <= 1.0 ==> Power(p, n) <= 1.0
    ensures p > 1.0 && n > 0 ==> Power(p, n) > 1.0
  {
    if n > 0 {
      PowerRange(p, n - 1);
      ProductPositive(Power(p, n - 1), p);
      if p <= 1.0 { ScaleMonotone(p, 1.0, Power(p, n - 1)); }
      else { ScaleIncreasing(1.0, p, Power(p, n - 1)); }
    }
  }

  /** The equilibrium is a fixed point. */
  lemma EquilibriumFixed(e: real, z: real, n: nat)
    ensures Closed(e, e, z, n) == e
  {
  }

  ghost predicate Between(x: real, a: real, b: real) { a <= x <= b || b <= x <= a }

  lemma ShareBetween(a: real, s: real)
    requires s > 0.0
    ensures Between(Times(a, s), 0.0, a) <==> (s <= 1.0 || a == 0.0)
  {
    if a > 0.0 {
      if s <= 1.0 { ScaleMonotone(s, 1.0, a); ScaleMonotone(0.0, s, a); } else { ScaleIncreasing(1.0, s, a); }
    } else if a < 0.0 {
      if s <= 1.0 { ScaleMonotone(s, 1.0, -a); ScaleMonotone(0.0, s, -a); } else { ScaleIncreasing(1.0, s, -a); }
    }
  }

  /** The integral stays between start and equilibrium exactly when the step is at most twice the time
      constant, or there is nothing to integrate. */
  lemma StaysBetweenIffStepSmall(x0: real, e: real, z: real, n: nat)
    requires z >= 0.0 && n > 0
    ensures Between(Closed(x0, e, z, n), x0, e) <==> (z <= 2.0 || x0 == e)
  {
    FactorRange(z);
    PowerRange(Factor(z), n);
    ShareBetween(x0 - e, Power(Factor(z), n));
  }

  /** For every step size the integral is at least as far from equilibrium as the exact solution, and
      on the same side. */
  lemma NeverCloserThanExact(m: Functions, x0: real, e: real, dt: real, tau: real, n: nat)
    requires m.Valid() && dt >= 0.0 && tau > 0.0 && n > 0
    ensures var exact := e + Times(x0 - e, m.exp(-(dt / tau)));
            var heun := Closed(x0, e, dt / n as real / tau, n);
            if x0 >= e then heun >= exact >= e else heun <= exact <= e
  {
    var z := dt / n as real / tau;
    StepShare(dt, tau, n);
    DecayQuadratic(m, z);
    ExpPositive(m, -z);
    ExpOfMultiple(m, -z, n);
    PowerMonotone(m.exp(-z), Factor(z), n);
    assert Multiple(n, -z) == -(dt / tau);
    var s, t := m.exp(-(dt / tau)), Power(Factor(z), n);
    if x0 >= e {
      ScaleMonotone(s, t, x0 - e);
      ScaleMonotone(0.0, s, x0 - e);
    } else {
      ScaleMonotone(s, t, e - x0);
      ScaleMonotone(0.0, s, e - x0);
      TimesNegates(e - x0, s);
      TimesNegates(e - x0, t);
    }
  }

  lemma TimesNegates(a: real, b: real)
    ensures Times(-a, b) == -Times(a, b)
  {
  }

  lemma StepShare(dt: real, tau: real, n: nat)
    requires dt >= 0.0 && tau > 0.0 && n > 0
    ensures dt / n as real / tau >= 0.0
    ensures Multiple(n, -(dt / n as real / tau)) == -(dt / tau)
  {
    var k := n as real;
    var h := dt / k;
    QuotientSign(dt, k);
    QuotientSign(h, tau);
    ShiftQuotient(k, h, tau);
    ShiftQuotient(h, k, tau);
    assert k * (h / tau) == (h * k) / tau;
  }
}
