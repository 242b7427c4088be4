/** The melting curve of the main fuse, its temperature derating, and the heating rate the observer
    draws from them (fuse_reference_oracle.c).  Floating-point values are exact reals. */
module FuseCurve {
  import opened Reals
  import opened Elementary

  /** An IEEE quantity that may be NaN or +infinity. */
  datatype Time = Undefined | Never | Seconds(s: real)

  datatype Point = Point(current: real, time: real)

  datatype Config = Config(
    rated: real, fraction: real, tau: real, soak: real, quiescent: real, margin: real,
    minDerating: real, maxMultiple: real, fitScale: real, fitExponent: real,
    maxTime: real, minTime: real,
    horizons: seq<real>, dischargeCaps: seq<real>, chargeCaps: seq<real>)
  {
    /** The three arrays have HORIZONS entries by type; the rest is checked by the code. */
    predicate Valid() {
      && |horizons| == |dischargeCaps| == |chargeCaps| == HORIZONS
      && Abs(rated - 80.0) <= 0.000000001
      && 0.0 < fraction <= 1.0
      && tau > 0.0 && soak >= 0.0 && quiescent >= 0.0 && margin >= 0.0
      && 0.0 < minDerating <= 1.0
      && maxMultiple >= 1.0
      && fitScale > 0.0 && fitExponent > 0.0
      && maxTime > 0.0 && 0.0 < minTime < maxTime
      && forall h | 0 <= h < HORIZONS :: horizons[h] > 0.0 && dischargeCaps[h] >= 0.0 && chargeCaps[h] >= 0.0
    }
  }

  const HORIZONS: nat := 4

  const CURVE: seq<Point> := [
    Point(154.0, 100.0), Point(168.0, 50.0), Point(180.9, 30.0), Point(192.8, 20.0),
    Point(219.2, 10.0), Point(249.2, 5.0), Point(274.9, 3.0), Point(300.8, 2.0),
    Point(350.9, 1.0), Point(411.1, 0.5), Point(458.9, 0.3), Point(500.2, 0.2),
    Point(576.6, 0.1), Point(652.8, 0.05), Point(705.8, 0.03), Point(752.5, 0.02),
    Point(800.0, 0.01253125), Point(850.0, 0.01078)]

  const DERATING: seq<Point> := [
    Point(-40.0, 1.15), Point(0.0, 1.06), Point(25.0, 1.00), Point(40.0, 0.97),
    Point(60.0, 0.93), Point(80.0, 0.89), Point(100.0, 0.85), Point(125.0, 0.80)]

  function Abs(x: real): real { if x < 0.0 then -x else x }

  function Clamp(x: real, lo: real, hi: real): real {
    if x < lo then lo else if x > hi then hi else x
  }

  function Lerp(x: real, x0: real, y0: real, x1: real, y1: real): real {
    if x1 <= x0 then y0 else y0 + Clamp((x - x0) / (x1 - x0), 0.0, 1.0) * (y1 - y0)
  }

  function LogFraction(m: Functions, x: real, x0: real, x1: real): real
    requires m.Valid() && 0.0 < x0 < x1
  {
    LnIncreasing(m, x0, x1);
    Clamp((m.ln(x) - m.ln(x0)) / (m.ln(x1) - m.ln(x0)), 0.0, 1.0)
  }

  function LogLerp(m: Functions, x: real, x0: real, y0: real, x1: real, y1: real): real
    requires m.Valid()
  {
    if x <= 0.0 || x0 <= 0.0 || x1 <= x0 || y0 <= 0.0 || y1 <= 0.0 then y0
    else m.exp(Lift(m.ln(y0), LogFraction(m, x, x0, x1), m.ln(y1)))
  }

  function Lift(a: real, f: real, b: real): real { a + f * (b - a) }

  function Pow(m: Functions, b: real, e: real): real { m.exp(Times(e, m.ln(b))) }

  /** The derated fraction of the rating at a fuse temperature; 0 when the floor is not a fraction. */
  function Derating(temperature: real, floor: real): real {
    if floor <= 0.0 || floor > 1.0 then 0.0
    else Clamp(DeratingAt(temperature), floor, 1.0)
  }

  function DeratingAt(temperature: real): real {
    if temperature <= DERATING[0].current then DERATING[0].time else DeratingFrom(temperature, 1)
  }

  function DeratingFrom(temperature: real, i: nat): real
    requires 1 <= i <= |DERATING|
    decreases |DERATING| - i
  {
    if i == |DERATING| then DERATING[|DERATING| - 1].time
    else if temperature <= DERATING[i].current then
      Lerp(temperature, DERATING[i - 1].current, DERATING[i - 1].time, DERATING[i].current, DERATING[i].time)
    else DeratingFrom(temperature, i + 1)
  }

  function FitRaw(m: Functions, c: Config, over: real): real {
    c.fitScale * Pow(m, over, -c.fitExponent)
  }

  function TableTime(m: Functions, current: real, i: nat): real
    requires m.Valid() && 1 <= i < |CURVE|
    decreases |CURVE| - i
  {
    var a, b := CURVE[i - 1], CURVE[i];
    if i == |CURVE| - 1 || current <= b.current
    then LogLerp(m, current, a.current, a.time, b.current, b.time)
    else TableTime(m, current, i + 1)
  }

  function TailSlope(m: Functions): real
    requires m.Valid()
  {
    var a, b := CURVE[|CURVE| - 2], CURVE[|CURVE| - 1];
    LnIncreasing(m, a.current, b.current);
    (m.ln(b.time) - m.ln(a.time)) / (m.ln(b.current) - m.ln(a.current))
  }

  function TailTime(m: Functions, current: real): real
    requires m.Valid()
  {
    var b := CURVE[|CURVE| - 1];
    m.exp(m.ln(b.time) + Times(TailSlope(m), m.ln(current) - m.ln(b.current)))
  }

  /** The typical melting time at a 25 C equivalent current. */
  function MeltTime(m: Functions, c: Config, current: real): Time
    requires m.Valid()
  {
    if !c.Valid() || current < 0.0 then Undefined
    else if current <= c.rated then Never
    else if current < CURVE[0].current then
      var over := current / c.rated - 1.0;
      if over <= 0.0 then Never else Seconds(Clamp(FitRaw(m, c, over), c.minTime, c.maxTime))
    else if current <= CURVE[|CURVE| - 1].current then Seconds(TableTime(m, current, 1))
    else Seconds(Clamp(TailTime(m, current), c.minTime, c.maxTime))
  }

  /** Whether the current lies outside the digitised part of the curve. */
  predicate Extrapolated(c: Config, current: real) {
    c.Valid() && current > c.rated && (current < CURVE[0].current || current > CURVE[|CURVE| - 1].current)
  }

  function UsableOf(c: Config, t: real): real { Clamp(Times(t, c.fraction), c.minTime, c.maxTime) }

  function Usable(m: Functions, c: Config, current: real): Time
    requires m.Valid()
  {
    match MeltTime(m, c, current)
    case Seconds(t) => Seconds(UsableOf(c, t))
    case _ => Never
  }

  /** The dose that one second-long unit of heating rate leaves at the usable melting time. */
  function Kernel(m: Functions, tau: real, u: real): real
    requires tau > 0.0
  {
    -tau * (m.exp(-(u / tau)) - 1.0)
  }

  function SourceRate(m: Functions, c: Config, current: real): real
    requires m.Valid() && c.Valid()
  {
    match Usable(m, c, current)
    case Seconds(u) => UsablePositive(m, c, current); KernelPositive(m, c.tau, u); 1.0 / Kernel(m, c.tau, u)
    case _ => 0.0
  }

  lemma UsablePositive(m: Functions, c: Config, current: real)
    requires m.Valid() && c.Valid() && Usable(m, c, current).Seconds?
    ensures Usable(m, c, current).s > 0.0
  {
  }

  lemma KernelPositive(m: Functions, tau: real, u: real)
    requires m.Valid() && tau > 0.0 && u > 0.0
    ensures Kernel(m, tau, u) > 0.0
  {
    var z := u / tau;
    QuotientSign(u, tau);
    ExpIncreasing(m, -z, 0.0);
    ExpZero(m);
    ProductPositive(tau, 1.0 - m.exp(-z));
  }

  /** A later melting time is a larger kernel, hence a slower heating rate. */
  lemma KernelIncreasing(m: Functions, tau: real, u: real, v: real)
    requires m.Valid() && tau > 0.0 && 0.0 < u < v
    ensures 0.0 < Kernel(m, tau, u) < Kernel(m, tau, v)
  {
    KernelPositive(m, tau, u);
    var a, b := u / tau, v / tau;
    QuotientMonotone(u, v, tau);
    ExpIncreasing(m, -b, -a);
    var p, q := m.exp(-a), m.exp(-b);
    ProductPositive(tau, p - q);
    assert tau * (p - q) == -tau * (q - 1.0) - -tau * (p - 1.0);
  }

  // ----- the digitised table is antitone -----

  lemma CurveShape(i: nat)
    requires 1 <= i < |CURVE|
    ensures 0.0 < CURVE[i - 1].current < CURVE[i].current
    ensures 0.0 < CURVE[i].time < CURVE[i - 1].time
  {
  }

  lemma FractionBounds(m: Functions, x: real, x0: real, x1: real)
    requires m.Valid() && 0.0 < x0 < x1
    ensures x <= x0 && x > 0.0 ==> LogFraction(m, x, x0, x1) == 0.0
    ensures x == x1 ==> LogFraction(m, x, x0, x1) == 1.0
  {
    LnIncreasing(m, x0, x1);
    if 0.0 < x <= x0 {
      if x < x0 { LnIncreasing(m, x, x0); }
      var d := m.ln(x1) - m.ln(x0);
      QuotientMonotone(m.ln(x) - m.ln(x0), 0.0, d);
      assert 0.0 / d == 0.0;
    }
    if x == x1 { QuotientOfItself(m.ln(x1) - m.ln(x0)); }
  }

  lemma FractionMonotone(m: Functions, x: real, y: real, x0: real, x1: real)
    requires m.Valid() && 0.0 < x0 < x1 && 0.0 < x <= y
    ensures LogFraction(m, x, x0, x1) <= LogFraction(m, y, x0, x1)
  {
    LnIncreasing(m, x0, x1);
    if x < y { LnIncreasing(m, x, y); }
    QuotientMonotone(m.ln(x) - m.ln(x0), m.ln(y) - m.ln(x0), m.ln(x1) - m.ln(x0));
  }

  lemma LiftAntitone(a: real, f: real, g: real, b: real)
    requires b <= a && 0.0 <= f <= g <= 1.0
    ensures b <= Lift(a, g, b) <= Lift(a, f, b) <= a
  {
    assert Lift(a, f, b) - Lift(a, g, b) == (g - f) * (a - b);
    assert Lift(a, g, b) - b == (1.0 - g) * (a - b);
    assert a - Lift(a, f, b) == f * (a - b);
  }

  lemma LogLerpAntitone(m: Functions, x: real, y: real, x0: real, y0: real, x1: real, y1: real)
    requires m.Valid() && 0.0 < x0 < x1 && 0.0 < y1 < y0 && 0.0 < x <= y
    ensures y1 <= LogLerp(m, y, x0, y0, x1, y1) <= LogLerp(m, x, x0, y0, x1, y1) <= y0
  {
    FractionMonotone(m, x, y, x0, x1);
    LnIncreasing(m, y1, y0);
    var f, g := LogFraction(m, x, x0, x1), LogFraction(m, y, x0, x1);
    LiftAntitone(m.ln(y0), f, g, m.ln(y1));
    ExpMonotone(m, m.ln(y1), Lift(m.ln(y0), g, m.ln(y1)));
    ExpMonotone(m, Lift(m.ln(y0), g, m.ln(y1)), Lift(m.ln(y0), f, m.ln(y1)));
    ExpMonotone(m, Lift(m.ln(y0), f, m.ln(y1)), m.ln(y0));
    ExpLn(m, y0);
    ExpLn(m, y1);
  }

  lemma LogLerpEnds(m: Functions, x0: real, y0: real, x1: real, y1: real)
    requires m.Valid() && 0.0 < x0 < x1 && 0.0 < y1 < y0
    ensures LogLerp(m, x0, x0, y0, x1, y1) == y0
    ensures LogLerp(m, x1, x0, y0, x1, y1) == y1
  {
    FractionBounds(m, x0, x0, x1);
    FractionBounds(m, x1, x0, x1);
    ExpLn(m, y0);
    ExpLn(m, y1);
  }

  lemma {:induction false} TableAtMost(m: Functions, x: real, i: nat)
    requires m.Valid() && 1 <= i < |CURVE| && x > 0.0
    ensures CURVE[|CURVE| - 1].time <= TableTime(m, x, i) <= CURVE[i - 1].time
    decreases |CURVE| - i
  {
    CurveShape(i);
    var a, b := CURVE[i - 1], CURVE[i];
    if i == |CURVE| - 1 || x <= b.current {
      LogLerpAntitone(m, x, x, a.current, a.time, b.current, b.time);
      TimesDescend(i, |CURVE| - 1);
    } else {
      TableAtMost(m, x, i + 1);
    }
  }

  lemma {:induction false} TimesDescend(i: nat, j: nat)
    requires i <= j < |CURVE|
    ensures CURVE[j].time <= CURVE[i].time
    decreases j - i
  {
    if i < j { CurveShape(i + 1); TimesDescend(i + 1, j); }
  }

  lemma {:induction false} TableAntitone(m: Functions, x: real, y: real, i: nat)
    requires m.Valid() && 1 <= i < |CURVE| && 0.0 < x <= y
    ensures TableTime(m, y, i) <= TableTime(m, x, i)
    decreases |CURVE| - i
  {
    CurveShape(i);
    var a, b := CURVE[i - 1], CURVE[i];
    if i == |CURVE| - 1 || y <= b.current {
      LogLerpAntitone(m, x, y, a.current, a.time, b.current, b.time);
    } else if x <= b.current {
      LogLerpAntitone(m, x, x, a.current, a.time, b.current, b.time);
      TableAtMost(m, y, i + 1);
    } else {
      TableAntitone(m, x, y, i + 1);
    }
  }

  lemma {:induction false} KnotTime(m: Functions, k: nat, i: nat)
    requires m.Valid() && 1 <= i <= k < |CURVE|
    ensures TableTime(m, CURVE[k].current, i) == CURVE[k].time
    decreases k - i
  {
    CurveShape(i);
    var a, b := CURVE[i - 1], CURVE[i];
    if i == k {
      LogLerpEnds(m, a.current, a.time, b.current, b.time);
    } else {
      CurrentsAscend(i, k);
      KnotTime(m, k, i + 1);
    }
  }

  lemma {:induction false} CurrentsAscend(i: nat, j: nat)
    requires i <= j < |CURVE|
    ensures CURVE[i].current <= CURVE[j].current
    ensures i < j ==> CURVE[i].current < CURVE[j].current
    decreases j - i
  {
    if i < j { CurveShape(i + 1); CurrentsAscend(i + 1, j); }
  }

  /** Every digitised point is reproduced exactly. */
  lemma CurveThroughPoints(m: Functions, c: Config, k: nat)
    requires m.Valid() && c.Valid() && k < |CURVE|
    ensures MeltTime(m, c, CURVE[k].current) == Seconds(CURVE[k].time)
  {
    CurrentsAscend(0, k);
    CurrentsAscend(k, |CURVE| - 1);
    if k == 0 {
      CurveShape(1);
      LogLerpEnds(m, CURVE[0].current, CURVE[0].time, CURVE[1].current, CURVE[1].time);
    } else {
      KnotTime(m, k, 1);
    }
  }

  // ----- the tail and the low-current fit -----

  lemma TailAntitone(m: Functions, x: real, y: real)
    requires m.Valid() && CURVE[|CURVE| - 1].current <= x <= y
    ensures TailTime(m, y) <= TailTime(m, x) <= CURVE[|CURVE| - 1].time
  {
    var a, b := CURVE[|CURVE| - 2], CURVE[|CURVE| - 1];
    LnIncreasing(m, a.current, b.current);
    LnIncreasing(m, b.time, a.time);
    QuotientMonotone(m.ln(b.time) - m.ln(a.time), 0.0, m.ln(b.current) - m.ln(a.current));
    assert 0.0 / (m.ln(b.current) - m.ln(a.current)) == 0.0;
    var slope := TailSlope(m);
    assert slope <= 0.0;
    if b.current < x { LnIncreasing(m, b.current, x); }
    if x < y { LnIncreasing(m, x, y); }
    var p, q := m.ln(x) - m.ln(b.current), m.ln(y) - m.ln(b.current);
    ScaleMonotone(p, q, -slope);
    ScaleMonotone(0.0, p, -slope);
    assert Times(slope, q) <= Times(slope, p) <= 0.0;
    ExpMonotone(m, m.ln(b.time) + Times(slope, q), m.ln(b.time) + Times(slope, p));
    ExpMonotone(m, m.ln(b.time) + Times(slope, p), m.ln(b.time));
    ExpLn(m, b.time);
  }

  lemma FitPositive(m: Functions, c: Config, over: real)
    requires m.Valid() && c.Valid()
    ensures FitRaw(m, c, over) > 0.0
  {
    ExpPositive(m, Times(-c.fitExponent, m.ln(over)));
    ProductPositive(c.fitScale, Pow(m, over, -c.fitExponent));
  }

  lemma FitAntitone(m: Functions, c: Config, x: real, y: real)
    requires m.Valid() && c.Valid() && 0.0 < x <= y
    ensures FitRaw(m, c, y) <= FitRaw(m, c, x)
  {
    if x < y { LnIncreasing(m, x, y); }
    var n, p, q := c.fitExponent, m.ln(x), m.ln(y);
    ScaleMonotone(p, q, n);
    assert Times(-n, q) <= Times(-n, p);
    ExpMonotone(m, Times(-n, q), Times(-n, p));
    ScaleMonotone(Pow(m, y, -n), Pow(m, x, -n), c.fitScale);
  }

  /** The overload at which the fit takes a given value: the fit's own inverse. */
  lemma FitInverse(m: Functions, c: Config, x: real) returns (over: real)
    requires m.Valid() && c.Valid() && x > 0.0
    ensures over > 0.0 && FitRaw(m, c, over) == x
  {
    var n, r := c.fitExponent, x / c.fitScale;
    QuotientSign(x, c.fitScale);
    var e := -(m.ln(r) / n);
    over := m.exp(e);
    ExpPositive(m, e);
    LnExp(m, e);
    QuotientSign(m.ln(r), n);
    assert Times(-n, e) == m.ln(r);
    ExpLn(m, r);
    assert Pow(m, over, -n) == r;
  }

  // ----- the whole curve -----

  function FitAtTable(m: Functions, c: Config): real
    requires c.Valid()
  {
    Clamp(FitRaw(m, c, CURVE[0].current / c.rated - 1.0), c.minTime, c.maxTime)
  }

  /** The one check a caller makes: at 154 A the clamped fit is usable for at least as long as the
      table's first point. */
  predicate FitMeetsTable(m: Functions, c: Config)
    requires c.Valid()
  {
    UsableOf(c, FitAtTable(m, c)) >= UsableOf(c, CURVE[0].time)
  }

  ghost predicate LaterOrEqual(a: Time, b: Time) {
    a.Never? || (a.Seconds? && b.Seconds? && a.s >= b.s)
  }

  lemma UsableOfMonotone(c: Config, s: real, t: real)
    requires c.Valid() && s <= t
    ensures UsableOf(c, s) <= UsableOf(c, t)
  {
    ScaleMonotone(s, t, c.fraction);
  }

  lemma UsableAtFirstPoint(m: Functions, c: Config)
    requires m.Valid() && c.Valid()
    ensures Usable(m, c, CURVE[0].current) == Seconds(UsableOf(c, CURVE[0].time))
  {
    CurveThroughPoints(m, c, 0);
  }

  lemma OverloadMonotone(c: Config, x: real, y: real)
    requires c.Valid() && x <= y
    ensures x / c.rated - 1.0 <= y / c.rated - 1.0
    ensures x > c.rated ==> x / c.rated - 1.0 > 0.0
  {
    QuotientMonotone(x, y, c.rated);
    if x > c.rated {
      QuotientSign(x - c.rated, c.rated);
      QuotientMinusOne(x, c.rated);
    }
  }

  lemma FitUsableAntitone(m: Functions, c: Config, x: real, y: real)
    requires m.Valid() && c.Valid() && c.rated < x <= y <= CURVE[0].current
    ensures UsableOf(c, Clamp(FitRaw(m, c, y / c.rated - 1.0), c.minTime, c.maxTime))
         <= UsableOf(c, Clamp(FitRaw(m, c, x / c.rated - 1.0), c.minTime, c.maxTime))
  {
    OverloadMonotone(c, x, y);
    FitAntitone(m, c, x / c.rated - 1.0, y / c.rated - 1.0);
    UsableOfMonotone(c, Clamp(FitRaw(m, c, y / c.rated - 1.0), c.minTime, c.maxTime),
                     Clamp(FitRaw(m, c, x / c.rated - 1.0), c.minTime, c.maxTime));
  }

  lemma TableUsableAntitone(m: Functions, c: Config, x: real, y: real)
    requires m.Valid() && c.Valid() && CURVE[0].current <= x <= y
    ensures LaterOrEqual(Usable(m, c, x), Usable(m, c, y))
    ensures LaterOrEqual(Seconds(UsableOf(c, CURVE[0].time)), Usable(m, c, y))
  {
    var last := CURVE[|CURVE| - 1];
    if y <= last.current {
      TableAntitone(m, x, y, 1);
      TableAtMost(m, y, 1);
      UsableOfMonotone(c, TableTime(m, y, 1), TableTime(m, x, 1));
      UsableOfMonotone(c, TableTime(m, y, 1), CURVE[0].time);
    } else {
      TailUsable(m, c, y);
      TimesDescend(0, |CURVE| - 1);
      UsableOfMonotone(c, last.time, CURVE[0].time);
      if x <= last.current {
        TableAtMost(m, x, 1);
        UsableOfMonotone(c, last.time, TableTime(m, x, 1));
      } else {
        TailAntitone(m, x, y);
        UsableOfMonotone(c, Clamp(TailTime(m, y), c.minTime, c.maxTime), Clamp(TailTime(m, x), c.minTime, c.maxTime));
      }
    }
  }

  /** Clamping the tail from below cannot lift it past the last point once the usable time is clamped
      too. */
  lemma TailUsable(m: Functions, c: Config, y: real)
    requires m.Valid() && c.Valid() && CURVE[|CURVE| - 1].current < y
    ensures Usable(m, c, y).Seconds? && Usable(m, c, y).s <= UsableOf(c, CURVE[|CURVE| - 1].time)
  {
    TailAntitone(m, y, y);
    var t, last := Clamp(TailTime(m, y), c.minTime, c.maxTime), CURVE[|CURVE| - 1].time;
    if t <= last {
      UsableOfMonotone(c, t, last);
    } else {
      assert t == c.minTime;
      FractionShrinks(t, c.fraction);
    }
  }

  lemma UsableAntitone(m: Functions, c: Config, x: real, y: real)
    requires m.Valid() && c.Valid() && FitMeetsTable(m, c) && 0.0 <= x <= y
    ensures LaterOrEqual(Usable(m, c, x), Usable(m, c, y))
  {
    if c.rated < x {
      OverloadMonotone(c, x, y);
      if y < CURVE[0].current {
        OverloadMonotone(c, y, y);
        FitUsableAntitone(m, c, x, y);
      } else if x < CURVE[0].current {
        FitUsableAntitone(m, c, x, CURVE[0].current);
        TableUsableAntitone(m, c, CURVE[0].current, y);
      } else {
        TableUsableAntitone(m, c, x, y);
      }
    }
  }

  lemma LaterIsSlower(m: Functions, c: Config, x: real, y: real)
    requires m.Valid() && c.Valid() && LaterOrEqual(Usable(m, c, x), Usable(m, c, y))
    ensures 0.0 <= SourceRate(m, c, x) <= SourceRate(m, c, y)
  {
    RateNonNegative(m, c, x);
    RateNonNegative(m, c, y);
    if Usable(m, c, x).Seconds? {
      UsablePositive(m, c, x);
      UsablePositive(m, c, y);
      var u, v := Usable(m, c, x).s, Usable(m, c, y).s;
      KernelPositive(m, c.tau, v);
      if v < u { KernelIncreasing(m, c.tau, v, u); }
      QuotientAntitone(Kernel(m, c.tau, v), Kernel(m, c.tau, u), 1.0);
    }
  }

  lemma RateNonNegative(m: Functions, c: Config, x: real)
    requires m.Valid() && c.Valid()
    ensures SourceRate(m, c, x) >= 0.0
  {
    if Usable(m, c, x).Seconds? {
      UsablePositive(m, c, x);
      KernelPositive(m, c.tau, Usable(m, c, x).s);
      QuotientSign(1.0, Kernel(m, c.tau, Usable(m, c, x).s));
    }
  }

  ghost predicate RateNonDecreasing(m: Functions, c: Config)
    requires m.Valid() && c.Valid()
  {
    forall x: real, y: real | 0.0 <= x <= y :: SourceRate(m, c, x) <= SourceRate(m, c, y)
  }

  lemma UsableLipschitz(c: Config, s: real, t: real)
    requires c.Valid() && s <= t
    ensures UsableOf(c, Clamp(t, c.minTime, c.maxTime)) <= UsableOf(c, Clamp(s, c.minTime, c.maxTime)) + (t - s)
  {
    var p, q := Clamp(s, c.minTime, c.maxTime), Clamp(t, c.minTime, c.maxTime);
    assert p <= q <= p + (t - s);
    FractionShrinks(q - p, c.fraction);
    DistributeMinus(q, p, c.fraction);
  }

  /** Where the check fails, a current just below 154 A heats faster than 154 A does. */
  lemma MismatchBreaksOrder(m: Functions, c: Config) returns (x: real)
    requires m.Valid() && c.Valid() && !FitMeetsTable(m, c)
    ensures 0.0 <= x <= CURVE[0].current
    ensures SourceRate(m, c, x) > SourceRate(m, c, CURVE[0].current)
  {
    var first := CURVE[0].current;
    var gap := UsableOf(c, CURVE[0].time) - UsableOf(c, FitAtTable(m, c));
    OverloadMonotone(c, first, first);
    var top := first / c.rated - 1.0;
    FitPositive(m, c, top);
    var raw := FitRaw(m, c, top);
    var over := FitInverse(m, c, raw + gap / 2.0);
    if top <= over { FitAntitone(m, c, top, over); }
    x := c.rated * (1.0 + over);
    BelowFirst(c, x, over, top);
    UsableLipschitz(c, raw, raw + gap / 2.0);
    UsableAtFirstPoint(m, c);
    assert MeltTime(m, c, x) == Seconds(Clamp(raw + gap / 2.0, c.minTime, c.maxTime));
    UsablePositive(m, c, x);
    var u, v := Usable(m, c, x).s, Usable(m, c, first).s;
    KernelIncreasing(m, c.tau, u, v);
    QuotientAntitone(Kernel(m, c.tau, u), Kernel(m, c.tau, v), 1.0);
  }

  lemma BelowFirst(c: Config, x: real, over: real, top: real)
    requires c.Valid() && x == c.rated * (1.0 + over) && 0.0 < over < top
    requires top == CURVE[0].current / c.rated - 1.0
    ensures c.rated < x < CURVE[0].current && x / c.rated - 1.0 == over
  {
    assert c.rated * (1.0 + top) == CURVE[0].current;
    ProductPositive(c.rated, over);
    ProductPositive(c.rated, top - over);
    assert c.rated * (top - over) == c.rated * (1.0 + top) - c.rated * (1.0 + over);
    assert x / c.rated == 1.0 + over;
  }

  /** The heating rate is non-decreasing over every current exactly when the low-current fit meets the
      table at 154 A. */
  lemma RateOrderIffFitMeetsTable(m: Functions, c: Config)
    requires m.Valid() && c.Valid()
    ensures RateNonDecreasing(m, c) <==> FitMeetsTable(m, c)
  {
    if FitMeetsTable(m, c) {
      forall x: real, y: real | 0.0 <= x <= y ensures SourceRate(m, c, x) <= SourceRate(m, c, y) {
        UsableAntitone(m, c, x, y);
        LaterIsSlower(m, c, x, y);
      }
    } else {
      var x := MismatchBreaksOrder(m, c);
      assert SourceRate(m, c, x) > SourceRate(m, c, CURVE[0].current);
    }
  }

  // ----- temperature derating -----

  lemma DeratingShape(i: nat)
    requires 1 <= i < |DERATING|
    ensures DERATING[i - 1].current < DERATING[i].current
    ensures 0.0 < DERATING[i].time < DERATING[i - 1].time
  {
  }

  lemma LerpAntitone(x: real, y: real, a: Point, b: Point)
    requires a.current < b.current && b.time < a.time && x <= y
    ensures b.time <= Lerp(y, a.current, a.time, b.current, b.time) <= Lerp(x, a.current, a.time, b.current, b.time) <= a.time
  {
    var d := b.current - a.current;
    QuotientMonotone(x - a.current, y - a.current, d);
    var f, g := Clamp((x - a.current) / d, 0.0, 1.0), Clamp((y - a.current) / d, 0.0, 1.0);
    LiftAntitone(a.time, f, g, b.time);
  }

  lemma {:induction false} DeratingFromAtMost(x: real, i: nat)
    requires 1 <= i <= |DERATING|
    ensures DERATING[|DERATING| - 1].time <= DeratingFrom(x, i) <= DERATING[i - 1].time
    decreases |DERATING| - i
  {
    if i < |DERATING| {
      DeratingShape(i);
      LerpAntitone(x, x, DERATING[i - 1], DERATING[i]);
      DeratingFromAtMost(x, i + 1);
    }
  }

  lemma {:induction false} DeratingFromAntitone(x: real, y: real, i: nat)
    requires 1 <= i <= |DERATING| && x <= y
    ensures DeratingFrom(y, i) <= DeratingFrom(x, i)
    decreases |DERATING| - i
  {
    if i < |DERATING| {
      DeratingShape(i);
      LerpAntitone(x, y, DERATING[i - 1], DERATING[i]);
      LerpAntitone(x, x, DERATING[i - 1], DERATING[i]);
      DeratingFromAtMost(y, i + 1);
      DeratingFromAntitone(x, y, i + 1);
    }
  }

  /** A hotter fuse is never derated less, and the result stays a positive fraction. */
  lemma DeratingAntitone(x: real, y: real, floor: real)
    requires x <= y && 0.0 < floor <= 1.0
    ensures 0.0 < floor <= Derating(y, floor) <= Derating(x, floor) <= 1.0
  {
    DeratingFromAtMost(y, 1);
    DeratingFromAntitone(x, y, 1);
  }
}
