/** The two-node thermal model of a segment, advanced by the trapezoidal rule (_thermal_step): when that step keeps
    the order of temperatures, and how far it lets two runs drift apart. */
module SopThermal {
  import opened Reals

  /** Core-to-surface rates seen from either node, the surface-to-ambient rate, and the core's heat capacity. */
  datatype Rates = Rates(a: real, b: real, c: real, capacity: real)
  {
    predicate Valid() { a > 0.0 && b > 0.0 && c > 0.0 && capacity > 0.0 }
  }

  datatype Nodes = Nodes(core: real, surface: real)

  predicate NoWarmer(n: Nodes, m: Nodes) { n.core <= m.core && n.surface <= m.surface }

  function Warmth(r: Rates, heat: real, dt: real): real
    requires r.Valid()
  {
    dt * heat / r.capacity
  }

  function CoreSide(r: Rates, n: Nodes, warmth: real, h: real): real {
    (1.0 - h * r.a) * n.core + h * r.a * n.surface + warmth
  }

  function SurfaceSide(r: Rates, n: Nodes, ambient: real, dt: real, h: real): real {
    h * r.b * n.core + (1.0 - h * (r.b + r.c)) * n.surface + dt * r.c * ambient
  }

  function Determinant(r: Rates, h: real): real {
    (1.0 + h * r.a) * (1.0 + h * (r.b + r.c)) - (-h * r.a) * (-h * r.b)
  }

  lemma DeterminantPositive(r: Rates, h: real)
    requires r.Valid() && h >= 0.0
    ensures Determinant(r, h) > 0.0
  {
    var p, q, s := h * r.a, h * r.b, h * r.c;
    assert p >= 0.0 && q >= 0.0 && s >= 0.0;
    assert h * (r.b + r.c) == q + s;
    Expanded(p, q, s);
    assert Determinant(r, h) == (1.0 + p) * (1.0 + (q + s)) - (-p) * (-q);
  }

  lemma Expanded(p: real, q: real, s: real)
    requires p >= 0.0 && q >= 0.0 && s >= 0.0
    ensures (1.0 + p) * (1.0 + (q + s)) - (-p) * (-q) >= 1.0
  {
    assert p * s >= 0.0;
  }

  function CoreTop(r: Rates, n: Nodes, warmth: real, ambient: real, dt: real, h: real): real {
    (1.0 + h * (r.b + r.c)) * CoreSide(r, n, warmth, h) - (-h * r.a) * SurfaceSide(r, n, ambient, dt, h)
  }

  function SurfaceTop(r: Rates, n: Nodes, warmth: real, ambient: real, dt: real, h: real): real {
    -(-h * r.b) * CoreSide(r, n, warmth, h) + (1.0 + h * r.a) * SurfaceSide(r, n, ambient, dt, h)
  }

  function Step(r: Rates, n: Nodes, heat: real, ambient: real, dt: real): Nodes
    requires r.Valid() && dt > 0.0
  {
    var h, w := 0.5 * dt, Warmth(r, heat, dt);
    DeterminantPositive(r, h);
    Nodes(CoreTop(r, n, w, ambient, dt, h) / Determinant(r, h), SurfaceTop(r, n, w, ambient, dt, h) / Determinant(r, h))
  }

  // ----- the step solves the trapezoidal rule -----

  lemma Cramer(m00: real, m01: real, m10: real, m11: real, x: real, y: real, d: real)
    requires d == m00 * m11 - m01 * m10 && d > 0.0
    ensures var p, q := (m11 * x - m01 * y) / d, (-m10 * x + m00 * y) / d; m00 * p + m01 * q == x && m10 * p + m11 * q == y
  {
    var p, q := (m11 * x - m01 * y) / d, (-m10 * x + m00 * y) / d;
    assert p * d == m11 * x - m01 * y && q * d == -m10 * x + m00 * y;
    assert (m00 * p + m01 * q) * d == m00 * (p * d) + m01 * (q * d) == x * d;
    assert (m10 * p + m11 * q) * d == m10 * (p * d) + m11 * (q * d) == y * d;
    Cancel(m00 * p + m01 * q, x, d);
    Cancel(m10 * p + m11 * q, y, d);
  }

  lemma Cancel(x: real, y: real, d: real)
    requires x * d == y * d && d > 0.0
    ensures x == y
  {
    assert (x - y) * d == 0.0;
  }

  lemma StepSolves(r: Rates, n: Nodes, heat: real, ambient: real, dt: real, h: real, m: Nodes)
    requires r.Valid() && dt > 0.0 && h == 0.5 * dt && m == Step(r, n, heat, ambient, dt)
    ensures (1.0 + h * r.a) * m.core + -h * r.a * m.surface == CoreSide(r, n, Warmth(r, heat, dt), h)
    ensures -h * r.b * m.core + (1.0 + h * (r.b + r.c)) * m.surface == SurfaceSide(r, n, ambient, dt, h)
  {
    DeterminantPositive(r, h);
    Cramer(1.0 + h * r.a, -h * r.a, -h * r.b, 1.0 + h * (r.b + r.c),
           CoreSide(r, n, Warmth(r, heat, dt), h), SurfaceSide(r, n, ambient, dt, h), Determinant(r, h));
  }

  lemma CoreTrapezoid(r: Rates, n: Nodes, m: Nodes, w: real, h: real)
    requires (1.0 + h * r.a) * m.core + -h * r.a * m.surface == CoreSide(r, n, w, h)
    ensures m.core - n.core == h * r.a * ((n.surface - n.core) + (m.surface - m.core)) + w
  {
    var k := h * r.a;
    assert -h * r.a == -k;
  }

  lemma SurfaceTrapezoid(r: Rates, n: Nodes, m: Nodes, ambient: real, dt: real, h: real)
    requires h == 0.5 * dt
    requires -h * r.b * m.core + (1.0 + h * (r.b + r.c)) * m.surface == SurfaceSide(r, n, ambient, dt, h)
    ensures m.surface - n.surface == h * r.b * ((n.core - n.surface) + (m.core - m.surface))
                                   + h * r.c * ((ambient - n.surface) + (ambient - m.surface))
  {
    var p, q := h * r.b, h * r.c;
    assert h * (r.b + r.c) == p + q && -h * r.b == -p && dt * r.c == 2.0 * q;
  }

  /** What the trapezoidal rule promises: each node's change is the step times the mean of its rates before and after,
      plus the heat. */
  ghost predicate Trapezoidal(r: Rates, n: Nodes, m: Nodes, w: real, ambient: real, h: real) {
    && m.core - n.core == h * r.a * ((n.surface - n.core) + (m.surface - m.core)) + w
    && m.surface - n.surface == h * r.b * ((n.core - n.surface) + (m.core - m.surface))
                                + h * r.c * ((ambient - n.surface) + (ambient - m.surface))
  }

  lemma StepIsTrapezoidal(r: Rates, n: Nodes, heat: real, ambient: real, dt: real)
    requires r.Valid() && dt > 0.0
    ensures Trapezoidal(r, n, Step(r, n, heat, ambient, dt), Warmth(r, heat, dt), ambient, 0.5 * dt)
  {
    var h, w, m := 0.5 * dt, Warmth(r, heat, dt), Step(r, n, heat, ambient, dt);
    StepSolves(r, n, heat, ambient, dt, h, m);
    CoreTrapezoid(r, n, m, w, h);
    SurfaceTrapezoid(r, n, m, ambient, dt, h);
  }

  // ----- the step as a linear map -----

  /** The determinant times the weight of the old core temperature in the new one. */
  function CoreStays(r: Rates, h: real): real { 1.0 + h * (r.b + r.c - r.a) - h * h * r.a * r.c }

  /** The determinant times the weight of the old surface temperature in the new one. */
  function SurfaceStays(r: Rates, h: real): real { 1.0 - h * (r.b + r.c - r.a) - h * h * r.a * r.c }

  function Weighted(p: real, q: real, u: real, n: Nodes, w: real, k: real): real {
    p * n.core + q * n.surface + u * w + k
  }

  lemma CoreTopIsLinear(r: Rates, n: Nodes, w: real, ambient: real, dt: real, h: real)
    ensures CoreTop(r, n, w, ambient, dt, h)
         == Weighted(CoreStays(r, h), 2.0 * (h * r.a), 1.0 + h * (r.b + r.c), n, w, h * r.a * (dt * r.c * ambient))
  {
  }

  lemma SurfaceTopIsLinear(r: Rates, n: Nodes, w: real, ambient: real, dt: real, h: real)
    ensures SurfaceTop(r, n, w, ambient, dt, h)
         == Weighted(2.0 * (h * r.b), SurfaceStays(r, h), h * r.b, n, w, (1.0 + h * r.a) * (dt * r.c * ambient))
  {
  }

  // ----- order -----

  /** Neither node's own weight is negative at this step size. */
  predicate Damped(r: Rates, dt: real) { CoreStays(r, 0.5 * dt) >= 0.0 && SurfaceStays(r, 0.5 * dt) >= 0.0 }

  lemma WeightedGrows(p: real, q: real, u: real, k: real, n: Nodes, w: real, n': Nodes, w': real)
    requires p >= 0.0 && q >= 0.0 && u >= 0.0 && NoWarmer(n, n') && w <= w'
    ensures Weighted(p, q, u, n, w, k) <= Weighted(p, q, u, n', w', k)
  {
    ScaleMonotone(n.core, n'.core, p);
    ScaleMonotone(n.surface, n'.surface, q);
    ScaleMonotone(w, w', u);
  }

  lemma RatesTimes(r: Rates, h: real)
    requires r.Valid() && h >= 0.0
    ensures h * r.a >= 0.0 && h * r.b >= 0.0 && h * (r.b + r.c) >= 0.0
  {
  }

  lemma WarmthGrows(r: Rates, heat: real, heat': real, dt: real)
    requires r.Valid() && dt > 0.0 && heat <= heat'
    ensures Warmth(r, heat, dt) <= Warmth(r, heat', dt)
  {
    ScaleMonotone(heat, heat', dt);
    QuotientMonotone(dt * heat, dt * heat', r.capacity);
  }

  lemma CoreTopGrows(r: Rates, n: Nodes, n': Nodes, w: real, w': real, ambient: real, dt: real, h: real)
    requires r.Valid() && h >= 0.0 && CoreStays(r, h) >= 0.0 && NoWarmer(n, n') && w <= w'
    ensures CoreTop(r, n, w, ambient, dt, h) <= CoreTop(r, n', w', ambient, dt, h)
  {
    RatesTimes(r, h);
    CoreTopIsLinear(r, n, w, ambient, dt, h);
    CoreTopIsLinear(r, n', w', ambient, dt, h);
    WeightedGrows(CoreStays(r, h), 2.0 * (h * r.a), 1.0 + h * (r.b + r.c), h * r.a * (dt * r.c * ambient), n, w, n', w');
  }

  lemma SurfaceTopGrows(r: Rates, n: Nodes, n': Nodes, w: real, w': real, ambient: real, dt: real, h: real)
    requires r.Valid() && h >= 0.0 && SurfaceStays(r, h) >= 0.0 && NoWarmer(n, n') && w <= w'
    ensures SurfaceTop(r, n, w, ambient, dt, h) <= SurfaceTop(r, n', w', ambient, dt, h)
  {
    RatesTimes(r, h);
    SurfaceTopIsLinear(r, n, w, ambient, dt, h);
    SurfaceTopIsLinear(r, n', w', ambient, dt, h);
    WeightedGrows(2.0 * (h * r.b), SurfaceStays(r, h), h * r.b, (1.0 + h * r.a) * (dt * r.c * ambient), n, w, n', w');
  }

  /** A damped step keeps a warmer segment with more heat at least as warm. */
  lemma StepKeepsOrder(r: Rates, n: Nodes, n': Nodes, heat: real, heat': real, ambient: real, dt: real)
    requires r.Valid() && dt > 0.0 && Damped(r, dt) && NoWarmer(n, n') && heat <= heat'
    ensures NoWarmer(Step(r, n, heat, ambient, dt), Step(r, n', heat', ambient, dt))
  {
    var h, w, w' := 0.5 * dt, Warmth(r, heat, dt), Warmth(r, heat', dt);
    WarmthGrows(r, heat, heat', dt);
    DeterminantPositive(r, h);
    CoreTopGrows(r, n, n', w, w', ambient, dt, h);
    SurfaceTopGrows(r, n, n', w, w', ambient, dt, h);
    QuotientMonotone(CoreTop(r, n, w, ambient, dt, h), CoreTop(r, n', w', ambient, dt, h), Determinant(r, h));
    QuotientMonotone(SurfaceTop(r, n, w, ambient, dt, h), SurfaceTop(r, n', w', ambient, dt, h), Determinant(r, h));
  }

  // ----- how far two runs drift apart -----

  /** m is at most gap warmer than n at either node. */
  predicate Apart(n: Nodes, m: Nodes, gap: real) { m.core <= n.core + gap && m.surface <= n.surface + gap }

  lemma WarmthAdds(r: Rates, heat: real, heat': real, t: real, u: real)
    requires r.Valid()
    ensures Warmth(r, heat', t) - Warmth(r, heat, t) == Warmth(r, heat' - heat, t)
    ensures Warmth(r, heat, t) + Warmth(r, heat, u) == Warmth(r, heat, t + u)
  {
    assert t * (heat' - heat) == t * heat' - t * heat;
    assert (t + u) * heat == t * heat + u * heat;
  }

  lemma TermWidens(p: real, x: real, y: real, gap: real)
    requires p >= 0.0 && y <= x + gap
    ensures Times(p, y) <= Times(p, x) + Times(p, gap)
  {
    ScaleMonotone(y, x + gap, p);
    assert p * (x + gap) == p * x + p * gap;
  }

  lemma RowWithin(p: real, q: real, u: real, gap: real, more: real, d: real)
    requires p + q <= d && u <= d && gap >= 0.0 && more >= 0.0
    ensures Times(p, gap) + Times(q, gap) + Times(u, more) <= Times(gap + more, d)
  {
    ScaleMonotone(p + q, d, gap);
    ScaleMonotone(u, d, more);
    assert (p + q) * gap == p * gap + q * gap;
    assert (gap + more) * d == gap * d + more * d;
  }

  lemma WeightedTimes(p: real, q: real, u: real, n: Nodes, w: real, k: real)
    ensures Weighted(p, q, u, n, w, k) == Times(p, n.core) + Times(q, n.surface) + Times(u, w) + k
  {
  }

  lemma WeightedWidens(p: real, q: real, u: real, k: real, n: Nodes, w: real, n': Nodes, w': real, gap: real, d: real)
    requires p >= 0.0 && q >= 0.0 && u >= 0.0 && p + q <= d && u <= d
    requires Apart(n, n', gap) && gap >= 0.0 && w <= w'
    ensures Weighted(p, q, u, n', w', k) <= Weighted(p, q, u, n, w, k) + Times(gap + (w' - w), d)
  {
    TermWidens(p, n.core, n'.core, gap);
    TermWidens(q, n.surface, n'.surface, gap);
    TermWidens(u, w, w', w' - w);
    RowWithin(p, q, u, gap, w' - w, d);
    WeightedTimes(p, q, u, n, w, k);
    WeightedTimes(p, q, u, n', w', k);
  }

  /** No row of weights exceeds the determinant. */
  lemma WeightsWithinDeterminant(r: Rates, h: real)
    requires r.Valid() && h >= 0.0
    ensures CoreStays(r, h) + 2.0 * (h * r.a) <= Determinant(r, h) && 1.0 + h * (r.b + r.c) <= Determinant(r, h)
    ensures 2.0 * (h * r.b) + SurfaceStays(r, h) <= Determinant(r, h) && h * r.b <= Determinant(r, h)
  {
    var p, q, s := h * r.a, h * r.b, h * r.c;
    assert p >= 0.0 && q >= 0.0 && s >= 0.0;
    assert h * (r.b + r.c) == q + s && h * (r.b + r.c - r.a) == q + s - p;
    assert h * h * r.a * r.c == p * s && p * s >= 0.0;
    assert Determinant(r, h) == (1.0 + p) * (1.0 + (q + s)) - (-p) * (-q);
    assert (1.0 + p) * (1.0 + (q + s)) - (-p) * (-q) == 1.0 + p + q + s + p * s;
  }

  lemma QuotientWidens(x: real, y: real, e: real, d: real)
    requires d > 0.0 && y <= x + Times(e, d)
    ensures y / d <= x / d + e
  {
    QuotientMonotone(y, x + e * d, d);
    assert (x + e * d) / d == x / d + e;
  }

  lemma CoreTopWidens(r: Rates, n: Nodes, n': Nodes, w: real, w': real, ambient: real, dt: real, h: real, gap: real)
    requires r.Valid() && h >= 0.0 && CoreStays(r, h) >= 0.0 && Apart(n, n', gap) && gap >= 0.0 && w <= w'
    ensures CoreTop(r, n', w', ambient, dt, h) <= CoreTop(r, n, w, ambient, dt, h) + Times(gap + (w' - w), Determinant(r, h))
  {
    RatesTimes(r, h);
    WeightsWithinDeterminant(r, h);
    CoreTopIsLinear(r, n, w, ambient, dt, h);
    CoreTopIsLinear(r, n', w', ambient, dt, h);
    WeightedWidens(CoreStays(r, h), 2.0 * (h * r.a), 1.0 + h * (r.b + r.c), h * r.a * (dt * r.c * ambient),
                   n, w, n', w', gap, Determinant(r, h));
  }

  lemma SurfaceTopWidens(r: Rates, n: Nodes, n': Nodes, w: real, w': real, ambient: real, dt: real, h: real, gap: real)
    requires r.Valid() && h >= 0.0 && SurfaceStays(r, h) >= 0.0 && Apart(n, n', gap) && gap >= 0.0 && w <= w'
    ensures SurfaceTop(r, n', w', ambient, dt, h) <= SurfaceTop(r, n, w, ambient, dt, h) + Times(gap + (w' - w), Determinant(r, h))
  {
    RatesTimes(r, h);
    WeightsWithinDeterminant(r, h);
    SurfaceTopIsLinear(r, n, w, ambient, dt, h);
    SurfaceTopIsLinear(r, n', w', ambient, dt, h);
    WeightedWidens(2.0 * (h * r.b), SurfaceStays(r, h), h * r.b, (1.0 + h * r.a) * (dt * r.c * ambient),
                   n, w, n', w', gap, Determinant(r, h));
  }

  /** A damped step widens the gap between two runs by no more than the difference in heat warms the core alone. */
  lemma StepWidens(r: Rates, n: Nodes, n': Nodes, heat: real, heat': real, ambient: real, dt: real, gap: real)
    requires r.Valid() && dt > 0.0 && Damped(r, dt) && heat <= heat' && Apart(n, n', gap) && gap >= 0.0
    ensures Apart(Step(r, n, heat, ambient, dt), Step(r, n', heat', ambient, dt), gap + Warmth(r, heat' - heat, dt))
  {
    var h, w, w' := 0.5 * dt, Warmth(r, heat, dt), Warmth(r, heat', dt);
    WarmthGrows(r, heat, heat', dt);
    WarmthAdds(r, heat, heat', dt, dt);
    DeterminantPositive(r, h);
    CoreTopWidens(r, n, n', w, w', ambient, dt, h, gap);
    SurfaceTopWidens(r, n, n', w, w', ambient, dt, h, gap);
    QuotientWidens(CoreTop(r, n, w, ambient, dt, h), CoreTop(r, n', w', ambient, dt, h), gap + (w' - w), Determinant(r, h));
    QuotientWidens(SurfaceTop(r, n, w, ambient, dt, h), SurfaceTop(r, n', w', ambient, dt, h), gap + (w' - w), Determinant(r, h));
  }

  ghost predicate OrderKept(r: Rates, ambient: real, dt: real)
    requires r.Valid() && dt > 0.0
  {
    forall n, n', heat, heat' | NoWarmer(n, n') && heat <= heat' ::
      NoWarmer(Step(r, n, heat, ambient, dt), Step(r, n', heat', ambient, dt))
  }

  const COLD: Nodes := Nodes(0.0, 0.0)

  lemma QuotientBackwards(x: real, y: real, d: real)
    requires d > 0.0 && x / d <= y / d
    ensures x <= y
  {
    if y < x { QuotientMonotone(y, x, d); }
  }

  /** The step keeps the order of temperatures exactly when it is damped. */
  lemma OrderKeptIffDamped(r: Rates, ambient: real, dt: real)
    requires r.Valid() && dt > 0.0
    ensures OrderKept(r, ambient, dt) <==> Damped(r, dt)
  {
    if Damped(r, dt) {
      forall n, n', heat, heat' | NoWarmer(n, n') && heat <= heat'
        ensures NoWarmer(Step(r, n, heat, ambient, dt), Step(r, n', heat', ambient, dt))
      {
        StepKeepsOrder(r, n, n', heat, heat', ambient, dt);
      }
    }
    if OrderKept(r, ambient, dt) {
      var h, w := 0.5 * dt, Warmth(r, 0.0, dt);
      var hotCore, hotSurface := Nodes(1.0, 0.0), Nodes(0.0, 1.0);
      DeterminantPositive(r, h);
      assert NoWarmer(COLD, hotCore) && NoWarmer(COLD, hotSurface);
      assert NoWarmer(Step(r, COLD, 0.0, ambient, dt), Step(r, hotCore, 0.0, ambient, dt));
      assert NoWarmer(Step(r, COLD, 0.0, ambient, dt), Step(r, hotSurface, 0.0, ambient, dt));
      QuotientBackwards(CoreTop(r, COLD, w, ambient, dt, h), CoreTop(r, hotCore, w, ambient, dt, h), Determinant(r, h));
      QuotientBackwards(SurfaceTop(r, COLD, w, ambient, dt, h), SurfaceTop(r, hotSurface, w, ambient, dt, h), Determinant(r, h));
      CoreTopIsLinear(r, COLD, w, ambient, dt, h);
      CoreTopIsLinear(r, hotCore, w, ambient, dt, h);
      SurfaceTopIsLinear(r, COLD, w, ambient, dt, h);
      SurfaceTopIsLinear(r, hotSurface, w, ambient, dt, h);
    }
  }

  lemma StaysShrink(k: real, z: real, h: real, h': real)
    requires 0.0 <= h <= h' && z >= 0.0 && 1.0 + h' * k - h' * h' * z >= 0.0
    ensures 1.0 + h * k - h * h * z >= 0.0
  {
    if k >= 0.0 {
      if h' > 0.0 {
        var t := h / h';
        assert t * h' == h && 0.0 <= t <= 1.0 by { QuotientMonotone(0.0, h, h'); QuotientMonotone(h, h', h'); QuotientOfItself(h'); }
        ScaledBy(t, h', k, z);
        ScaleMonotone(0.0, h', k);
        Interpolate(t, h' * k, h' * h' * z);
      }
    } else {
      ScaleMonotone(h, h', -k);
      SquareMonotone(h, h', z);
    }
  }

  lemma ScaledBy(t: real, h: real, k: real, z: real)
    ensures t * h * k == t * (h * k) && (t * h) * (t * h) * z == t * t * (h * h * z)
  {
  }

  lemma SquareMonotone(h: real, h': real, z: real)
    requires 0.0 <= h <= h' && z >= 0.0
    ensures h * h * z <= h' * h' * z
  {
    ScaleMonotone(h, h', h);
    ScaleMonotone(h, h', h');
    ScaleMonotone(h * h, h' * h', z);
  }

  lemma Interpolate(t: real, u: real, v: real)
    requires 0.0 <= t <= 1.0 && u >= 0.0 && v >= 0.0 && 1.0 + u - v >= 0.0
    ensures 1.0 + t * u - t * t * v >= 0.0
  {
    ScaleMonotone(t, 1.0, t);
    ScaleMonotone(t * t, t, v);
    ScaleMonotone(0.0, 1.0 + u - v, t);
    assert t * (1.0 + u - v) == t + t * u - t * v;
  }

  /** A step no longer than a damped one is damped. */
  lemma ShorterIsDamped(r: Rates, dt: real, dt': real)
    requires r.Valid() && 0.0 < dt <= dt' && Damped(r, dt')
    ensures Damped(r, dt)
  {
    var h, h' := 0.5 * dt, 0.5 * dt';
    var k, z := r.b + r.c - r.a, r.a * r.c;
    ProductPositive(r.a, r.c);
    assert h * h * r.a * r.c == h * h * z && h' * h' * r.a * r.c == h' * h' * z;
    assert -(h' * k) == h' * -k && -(h * k) == h * -k;
    StaysShrink(k, z, h, h');
    StaysShrink(-k, z, h, h');
  }
}
