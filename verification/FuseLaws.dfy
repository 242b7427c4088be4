/** What the fuse observer's curve, derating and steps amount to in currents, times and temperatures. */
module FuseLaws {
  import opened Reals
  import opened Elementary
  import opened FuseCurve

  // ----- the digitised points -----

  /** The data sheet's currents and melting times. */
  lemma PublishedPoints(m: Functions, c: Config, k: nat)
    requires m.Valid() && c.Valid() && k < 18
    ensures var amperes := [154.0, 168.0, 180.9, 192.8, 219.2, 249.2, 274.9, 300.8, 350.9,
                            411.1, 458.9, 500.2, 576.6, 652.8, 705.8, 752.5, 800.0, 850.0];
            var seconds := [100.0, 50.0, 30.0, 20.0, 10.0, 5.0, 3.0, 2.0, 1.0,
                            0.5, 0.3, 0.2, 0.1, 0.05, 0.03, 0.02, 0.01253125, 0.01078];
            MeltTime(m, c, amperes[k]) == Seconds(seconds[k])
  {
    CurveThroughPoints(m, c, k);
  }

  // ----- the low-current fit -----

  lemma LnProduct(m: Functions, x: real, y: real, z: real)
    requires m.Valid() && x > 0.0 && y > 0.0 && z == x * y
    ensures z > 0.0 && m.ln(z) == m.ln(x) + m.ln(y)
  {
    ExpLn(m, x);
    ExpLn(m, y);
    ExpAdd(m, m.ln(x), m.ln(y));
    assert m.exp(m.ln(x) + m.ln(y)) == z;
    LnExp(m, m.ln(x) + m.ln(y));
    ProductPositive(x, y);
  }

  /** A time limited to the configured range. */
  function Limited(c: Config, t: real): real {
    if t < c.minTime then c.minTime else if t > c.maxTime then c.maxTime else t
  }

  /** Between the rating and 154 A the time is a power of the overload: its logarithm falls by the configured exponent
      per unit of the overload's logarithm, until a time limit takes over. */
  lemma FitLaw(m: Functions, c: Config, current: real) returns (t: real)
    requires m.Valid() && c.Valid() && c.rated < current < 154.0
    ensures current / c.rated - 1.0 > 0.0 && t > 0.0
    ensures m.ln(t) == m.ln(c.fitScale) - c.fitExponent * m.ln(current / c.rated - 1.0)
    ensures MeltTime(m, c, current) == Seconds(Limited(c, t))
  {
    var over := current / c.rated - 1.0;
    OverloadMonotone(c, current, current);
    var p := Pow(m, over, -c.fitExponent);
    t := c.fitScale * p;
    ExpPositive(m, Times(-c.fitExponent, m.ln(over)));
    LnExp(m, Times(-c.fitExponent, m.ln(over)));
    LnProduct(m, c.fitScale, p, t);
    assert Times(-c.fitExponent, m.ln(over)) == -(c.fitExponent * m.ln(over));
  }

  /** The same off the limits, on the answered time alone. */
  lemma FitInLogarithms(m: Functions, c: Config, current: real, t: real)
    requires m.Valid() && c.Valid() && c.rated < current < 154.0
    requires MeltTime(m, c, current) == Seconds(t) && c.minTime < t < c.maxTime
    ensures m.ln(t) == m.ln(c.fitScale) - c.fitExponent * m.ln(current / c.rated - 1.0)
  {
    var raw := FitLaw(m, c, current);
    assert t == raw;
  }

  /** Two currents in this range differ in log time by the exponent times the difference of their log overloads. */
  lemma FitRatio(m: Functions, c: Config, x: real, s: real, y: real, t: real)
    requires m.Valid() && c.Valid() && c.rated < x < 154.0 && c.rated < y < 154.0
    requires MeltTime(m, c, x) == Seconds(s) && c.minTime < s < c.maxTime
    requires MeltTime(m, c, y) == Seconds(t) && c.minTime < t < c.maxTime
    ensures m.ln(s) - m.ln(t) == c.fitExponent * (m.ln(y / c.rated - 1.0) - m.ln(x / c.rated - 1.0))
  {
    FitInLogarithms(m, c, x, s);
    FitInLogarithms(m, c, y, t);
    DistributeMinus(m.ln(y / c.rated - 1.0), m.ln(x / c.rated - 1.0), c.fitExponent);
  }

  // ----- table and tail -----

  /** The point (x, t) lies on the line through (x0, t0) and (x1, t1) on logarithmic scales. */
  predicate OnLogLine(m: Functions, x: real, t: real, x0: real, t0: real, x1: real, t1: real) {
    (m.ln(t) - m.ln(t0)) * (m.ln(x1) - m.ln(x0)) == (m.ln(x) - m.ln(x0)) * (m.ln(t1) - m.ln(t0))
  }

  lemma {:induction false} TableSegment(m: Functions, x: real, k: nat, i: nat)
    requires m.Valid() && 1 <= i <= k < |CURVE| && CURVE[k - 1].current < x <= CURVE[k].current
    ensures TableTime(m, x, i) == LogLerp(m, x, CURVE[k - 1].current, CURVE[k - 1].time, CURVE[k].current, CURVE[k].time)
    decreases k - i
  {
    if i < k {
      CurrentsAscend(i, k - 1);
      TableSegment(m, x, k, i + 1);
    }
  }

  lemma FractionInside(m: Functions, x: real, x0: real, x1: real)
    requires m.Valid() && 0.0 < x0 < x <= x1
    ensures m.ln(x1) - m.ln(x0) > 0.0
    ensures LogFraction(m, x, x0, x1) * (m.ln(x1) - m.ln(x0)) == m.ln(x) - m.ln(x0)
  {
    LnIncreasing(m, x0, x1);
    LnIncreasing(m, x0, x);
    if x < x1 { LnIncreasing(m, x, x1); }
    var d := m.ln(x1) - m.ln(x0);
    QuotientMonotone(0.0, m.ln(x) - m.ln(x0), d);
    QuotientMonotone(m.ln(x) - m.ln(x0), d, d);
    QuotientOfItself(d);
    QuotientSign(m.ln(x) - m.ln(x0), d);
  }

  lemma LogLerpOnLine(m: Functions, x: real, x0: real, t0: real, x1: real, t1: real)
    requires m.Valid() && 0.0 < x0 < x <= x1 && t0 > 0.0 && t1 > 0.0
    ensures OnLogLine(m, x, LogLerp(m, x, x0, t0, x1, t1), x0, t0, x1, t1)
  {
    FractionInside(m, x, x0, x1);
    var f := LogFraction(m, x, x0, x1);
    LnExp(m, Lift(m.ln(t0), f, m.ln(t1)));
    SwapFactors(f, m.ln(t1) - m.ln(t0), m.ln(x1) - m.ln(x0));
  }

  lemma SwapFactors(f: real, a: real, b: real)
    ensures (f * a) * b == (f * b) * a
  {
  }

  /** Between two neighbouring points the time is a straight line on logarithmic scales. */
  lemma TableIsLogLinear(m: Functions, c: Config, current: real, k: nat)
    requires m.Valid() && c.Valid() && 1 <= k < |CURVE| && CURVE[k - 1].current < current <= CURVE[k].current
    ensures MeltTime(m, c, current).Seconds?
    ensures OnLogLine(m, current, MeltTime(m, c, current).s, CURVE[k - 1].current, CURVE[k - 1].time, CURVE[k].current, CURVE[k].time)
  {
    CurrentsAscend(0, k - 1);
    CurrentsAscend(k, |CURVE| - 1);
    CurveShape(k);
    TableSegment(m, current, k, 1);
    LogLerpOnLine(m, current, CURVE[k - 1].current, CURVE[k - 1].time, CURVE[k].current, CURVE[k].time);
  }

  lemma OnSlope(p: real, q: real, a: real, b: real)
    requires b > 0.0 && p == Times(a / b, q)
    ensures p * b == q * a
  {
    QuotientSign(a, b);
    assert (a / b) * q * b == ((a / b) * b) * q;
  }

  /** Beyond 850 A the line through the last two points goes on, until a time limit takes over. */
  lemma TailIsLogLinear(m: Functions, c: Config, current: real) returns (t: real)
    requires m.Valid() && c.Valid() && current > 850.0
    ensures t > 0.0 && MeltTime(m, c, current) == Seconds(Limited(c, t))
    ensures (m.ln(t) - m.ln(0.01078)) * (m.ln(850.0) - m.ln(800.0)) == (m.ln(current) - m.ln(850.0)) * (m.ln(0.01078) - m.ln(0.01253125))
  {
    assert CURVE[|CURVE| - 2] == Point(800.0, 0.01253125) && CURVE[|CURVE| - 1] == Point(850.0, 0.01078);
    t := TailTime(m, current);
    var e := m.ln(0.01078) + Times(TailSlope(m), m.ln(current) - m.ln(850.0));
    ExpPositive(m, e);
    LnExp(m, e);
    LnIncreasing(m, 800.0, 850.0);
    OnSlope(m.ln(t) - m.ln(0.01078), m.ln(current) - m.ln(850.0), m.ln(0.01078) - m.ln(0.01253125), m.ln(850.0) - m.ln(800.0));
  }

  /** No melting is expected up to the rating, and the curve is left there, below 154 A and beyond 850 A. */
  lemma WhereTheCurveAnswers(m: Functions, c: Config, current: real)
    requires m.Valid() && c.Valid()
    ensures MeltTime(m, c, current) == Undefined <==> current < 0.0
    ensures MeltTime(m, c, current) == Never <==> 0.0 <= current <= c.rated
    ensures Extrapolated(c, current) <==> c.rated < current < 154.0 || current > 850.0
  {
    assert CURVE[0].current == 154.0 && CURVE[|CURVE| - 1].current == 850.0;
    OverloadMonotone(c, current, current);
  }

  // ----- derating -----

  lemma LerpOnLine(x: real, a: Point, b: Point, slope: real)
    requires a.current <= x <= b.current && a.current < b.current && b.time - a.time == slope * (b.current - a.current)
    ensures Lerp(x, a.current, a.time, b.current, b.time) == a.time + slope * (x - a.current)
  {
    var d := b.current - a.current;
    QuotientMonotone(0.0, x - a.current, d);
    QuotientMonotone(x - a.current, d, d);
    QuotientOfItself(d);
    var f := (x - a.current) / d;
    QuotientSign(x - a.current, d);
    assert f * (slope * d) == slope * (f * d);
  }

  /** From 25 C on the data sheet's points lie on one line, which ends at 125 C. */
  function Line(t: real): real { if t > 125.0 then 0.8 else 1.05 - 0.002 * t }

  lemma {:induction false} HotIsOnLine(t: real, i: nat)
    requires 3 <= i <= |DERATING| && t > DERATING[i - 1].current
    ensures DeratingFrom(t, i) == Line(t)
    decreases |DERATING| - i
  {
    if i < |DERATING| {
      if t <= DERATING[i].current {
        LerpOnLine(t, DERATING[i - 1], DERATING[i], -0.002);
      } else {
        HotIsOnLine(t, i + 1);
      }
    }
  }

  lemma ColdIsAboveOne(t: real)
    requires t <= 25.0
    ensures DeratingAt(t) >= 1.0
  {
    if t > DERATING[0].current {
      if t <= 0.0 {
        LerpOnLine(t, DERATING[0], DERATING[1], -0.00225);
      } else {
        LerpOnLine(t, DERATING[1], DERATING[2], -0.0024);
      }
    }
  }

  /** The derating is the line 1.05 - 0.002 t, limited to 1 above and to the floor, or 0.8, below. */
  lemma DeratingIsOneLine(t: real, floor: real)
    ensures 0.0 < floor <= 1.0 ==>
      Derating(t, floor) == (var low := if floor > 0.8 then floor else 0.8;
                             var line := 1.05 - 0.002 * t;
                             if line < low then low else if line > 1.0 then 1.0 else line)
    ensures !(0.0 < floor <= 1.0) ==> Derating(t, floor) == 0.0
  {
    assert DERATING[2] == Point(25.0, 1.0) && DERATING[7] == Point(125.0, 0.80);
    if t <= 25.0 {
      ColdIsAboveOne(t);
    } else {
      assert DeratingFrom(t, 1) == DeratingFrom(t, 2);
      assert DeratingFrom(t, 2) == DeratingFrom(t, 3);
      HotIsOnLine(t, 3);
    }
  }
}
