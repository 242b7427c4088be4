/** What the fuse observer's state keeps over whole runs: utilisation in range with the latch in step, and an end
    that does not depend on how an interval is cut up. */
module FuseProperties {
  import opened Reals
  import opened Elementary
  import opened FuseCurve
  import opened FuseObserver

  // ----- relaxation -----

  lemma RelaxedBetween(x: real, e: real, d: real)
    requires 0.0 <= d <= 1.0
    ensures x <= e ==> x <= Relaxed(x, e, d) <= e
    ensures e <= x ==> e <= Relaxed(x, e, d) <= x
  {
    var r := Relaxed(x, e, d);
    assert r - e == (x - e) * d && r - x == (e - x) * (1.0 - d);
    if x <= e { ScaleMonotone(x, e, d); ScaleMonotone(x, e, 1.0 - d); }
    else { ScaleMonotone(e, x, d); ScaleMonotone(e, x, 1.0 - d); }
  }

  lemma RelaxedMonotone(x: real, y: real, e: real, f: real, d: real)
    requires x <= y && e <= f && 0.0 <= d <= 1.0
    ensures Relaxed(x, e, d) <= Relaxed(y, f, d)
  {
    ScaleMonotone(x, y, d);
    ScaleMonotone(e, f, 1.0 - d);
  }

  lemma RelaxedCompose(x: real, e: real, d1: real, d2: real)
    ensures Relaxed(Relaxed(x, e, d1), e, d2) == Relaxed(x, e, Times(d1, d2))
  {
    var y := Relaxed(x, e, d1);
    assert y == e + (x - e) * d1;
    assert Relaxed(y, e, d2) == e + (y - e) * d2;
    assert (y - e) * d2 == (x - e) * (d1 * d2);
    assert Relaxed(x, e, Times(d1, d2)) == e + (x - e) * (d1 * d2);
  }

  /** Keeping more of the start moves the result towards the start. */
  lemma RelaxedInDecay(x: real, e: real, d: real, g: real)
    requires d <= g
    ensures x <= e ==> Relaxed(x, e, g) <= Relaxed(x, e, d)
    ensures e <= x ==> Relaxed(x, e, d) <= Relaxed(x, e, g)
  {
    assert Relaxed(x, e, g) == e + (x - e) * g && Relaxed(x, e, d) == e + (x - e) * d;
    if x <= e { ScaleMonotone(d, g, e - x); } else { ScaleMonotone(d, g, x - e); }
  }

  lemma DecayRange(m: Functions, c: Config, t: real)
    requires m.Valid() && c.Valid() && t >= 0.0
    ensures 0.0 < Decay(m, c, t) <= 1.0
    ensures t > 0.0 ==> Decay(m, c, t) < 1.0
  {
    QuotientSign(t, c.tau);
    ExpZero(m);
    ExpMonotone(m, -(t / c.tau), 0.0);
    if t > 0.0 { ExpIncreasing(m, -(t / c.tau), 0.0); }
  }

  lemma DecayAdds(m: Functions, c: Config, t: real, u: real)
    requires m.Valid() && c.Valid()
    ensures Decay(m, c, t + u) == Times(Decay(m, c, t), Decay(m, c, u))
  {
    QuotientAdds(t, u, c.tau);
    ExpAdd(m, -(t / c.tau), -(u / c.tau));
    assert -((t + u) / c.tau) == -(t / c.tau) + -(u / c.tau);
  }

  lemma QuotientAdds(a: real, b: real, d: real)
    requires d > 0.0
    ensures (a + b) / d == a / d + b / d
  {
  }

  lemma DecayAntitone(m: Functions, c: Config, t: real, u: real)
    requires m.Valid() && c.Valid() && t <= u
    ensures 0.0 < Decay(m, c, u) <= Decay(m, c, t)
    ensures t < u ==> Decay(m, c, u) < Decay(m, c, t)
  {
    QuotientMonotone(t, u, c.tau);
    ExpMonotone(m, -(u / c.tau), -(t / c.tau));
    if t < u { ExpIncreasing(m, -(u / c.tau), -(t / c.tau)); }
  }

  lemma EquilibriumMonotone(m: Functions, c: Config, x: real, y: real)
    requires m.Valid() && c.Valid() && FitMeetsTable(m, c) && 0.0 <= x <= y
    ensures 0.0 <= Equilibrium(m, c, x) <= Equilibrium(m, c, y)
  {
    RateOrderIffFitMeetsTable(m, c);
    RateNonNegative(m, c, x);
    ScaleMonotone(SourceRate(m, c, x), SourceRate(m, c, y), c.tau);
    ScaleMonotone(0.0, SourceRate(m, c, x), c.tau);
  }

  lemma EquilibriumNonNegative(m: Functions, c: Config, x: real)
    requires m.Valid() && c.Valid()
    ensures Equilibrium(m, c, x) >= 0.0
  {
    RateNonNegative(m, c, x);
    ScaleMonotone(0.0, SourceRate(m, c, x), c.tau);
  }

  // ----- reachable states -----

  /** What every reachable state satisfies. */
  ghost predicate Coherent(c: Config, s: State) {
    && 0.0 <= s.utilization <= c.maxMultiple
    && (s.utilization >= 1.0 ==> s.exhausted)
    && (s.utilization <= 0.5 ==> !s.exhausted && !s.conservative)
  }

  function Run(m: Functions, c: Config, s: State, inputs: seq<Input>): State
    requires m.Valid()
    decreases |inputs|
  {
    if inputs == [] then s else Run(m, c, Advance(m, c, s, inputs[0]), inputs[1..])
  }

  lemma AdvanceCoherent(m: Functions, c: Config, s: State, i: Input)
    requires m.Valid() && c.Valid() && Coherent(c, s)
    ensures Coherent(c, Advance(m, c, s, i))
  {
  }

  /** Every run, over valid and invalid inputs alike, keeps the latch in step with the utilisation. */
  lemma {:induction false} RunCoherent(m: Functions, c: Config, s: State, inputs: seq<Input>)
    requires m.Valid() && c.Valid() && Coherent(c, s)
    ensures Coherent(c, Run(m, c, s, inputs))
    decreases |inputs|
  {
    if inputs != [] {
      AdvanceCoherent(m, c, s, inputs[0]);
      RunCoherent(m, c, Advance(m, c, s, inputs[0]), inputs[1..]);
    }
  }

  lemma StartsCoherent(c: Config, u: real)
    requires c.Valid()
    ensures Coherent(c, INITIAL)
    ensures 0.0 <= u <= c.maxMultiple ==> Coherent(c, INITIAL.(utilization := u, quiescentTime := c.soak, initialized := true, exhausted := u >= 1.0))
  {
  }

  // ----- subdivision -----

  /** The parts of the state that decide anything: everything but the soak timer and the counters. */
  ghost predicate SameThermal(s: State, t: State) {
    && s.utilization == t.utilization && s.exhausted == t.exhausted
    && s.conservative == t.conservative && s.initialized == t.initialized
    && (!s.initialized ==> s.quiescentTime == t.quiescentTime)
  }

  lemma AdvanceSame(m: Functions, c: Config, s: State, t: State, i: Input)
    requires m.Valid() && SameThermal(s, t)
    ensures SameThermal(Advance(m, c, s, i), Advance(m, c, t, i))
  {
  }

  /** Clamping in the middle of a relaxation does not change where it ends. */
  lemma ClampedCompose(x: real, e: real, d1: real, d2: real, top: real)
    requires 0.0 <= x <= top && 0.0 <= e && 0.0 <= d1 <= 1.0 && 0.0 <= d2 <= 1.0
    ensures Clamp(Relaxed(Clamp(Relaxed(x, e, d1), 0.0, top), e, d2), 0.0, top)
         == Clamp(Relaxed(x, e, Times(d1, d2)), 0.0, top)
  {
    RelaxedBetween(x, e, d1);
    RelaxedCompose(x, e, d1, d2);
    var y := Relaxed(x, e, d1);
    if y > top {
      RelaxedBetween(top, e, d2);
      RelaxedBetween(y, e, d2);
      AboveBoth(y, e, d2, top);
    }
  }

  lemma AboveBoth(y: real, e: real, d: real, top: real)
    requires top < y && top < e && 0.0 <= d <= 1.0
    ensures Relaxed(y, e, d) >= top
  {
    RelaxedMonotone(top, y, top, e, d);
    assert Relaxed(top, top, d) == top by { DistributeMinus(1.0, d, top); }
  }

  lemma ClampedOrder(x: real, e: real, d: real, top: real)
    requires 0.0 <= x <= top && 0.0 <= e && 0.0 <= d <= 1.0
    ensures var u := Clamp(Relaxed(x, e, d), 0.0, top);
            0.0 <= u <= top && (x <= e ==> x <= u <= e) && (e <= x ==> e <= u <= x)
  {
    RelaxedBetween(x, e, d);
  }

  predicate SameHeld(i: Input, j: Input) {
    j == i.(elapsed := j.elapsed)
  }

  lemma ClampedStepsCompose(m: Functions, c: Config, u: real, e: real, t: real, v: real)
    requires m.Valid() && c.Valid() && 0.0 <= u <= c.maxMultiple && e >= 0.0 && t > 0.0 && v > 0.0
    ensures Clamp(Relaxed(Clamp(Relaxed(u, e, Decay(m, c, t)), 0.0, c.maxMultiple), e, Decay(m, c, v)), 0.0, c.maxMultiple)
         == Clamp(Relaxed(u, e, Decay(m, c, t + v)), 0.0, c.maxMultiple)
  {
    DecayRange(m, c, t);
    DecayRange(m, c, v);
    DecayAdds(m, c, t, v);
    ClampedCompose(u, e, Decay(m, c, t), Decay(m, c, v), c.maxMultiple);
  }

  lemma HeldStepsCompose(m: Functions, c: Config, u: real, i: Input, t: real, v: real)
    requires m.Valid() && c.Valid() && 0.0 <= u <= c.maxMultiple && t > 0.0 && v > 0.0
    ensures var e, top := InputEquilibrium(m, c, i), c.maxMultiple;
      Clamp(Relaxed(Clamp(Relaxed(u, e, Decay(m, c, t)), 0.0, top), e, Decay(m, c, v)), 0.0, top)
      == Clamp(Relaxed(u, e, Decay(m, c, t + v)), 0.0, top)
  {
    InputEquilibriumNonNegative(m, c, i);
    ClampedStepsCompose(m, c, u, InputEquilibrium(m, c, i), t, v);
  }

  lemma NextComposes(m: Functions, c: Config, u: real, i: Input, j: Input)
    requires m.Valid() && c.Valid() && 0.0 <= u <= c.maxMultiple && SameHeld(i, j)
    requires i.elapsed > 0.0 && j.elapsed > 0.0
    ensures NextUtilization(m, c, NextUtilization(m, c, u, i), j) == NextUtilization(m, c, u, i.(elapsed := i.elapsed + j.elapsed))
  {
    HeldStepsCompose(m, c, u, i, i.elapsed, j.elapsed);
    var merged := i.(elapsed := i.elapsed + j.elapsed);
    assert Effective(j) == Effective(i) == Effective(merged);
    assert InputDerating(c, j) == InputDerating(c, i) == InputDerating(c, merged);
  }

  lemma InputEquilibriumNonNegative(m: Functions, c: Config, i: Input)
    requires m.Valid() && c.Valid()
    ensures InputEquilibrium(m, c, i) >= 0.0
  {
    DeratingAntitone(FuseTemperature(c, i), FuseTemperature(c, i), c.minDerating);
    EquilibriumNonNegative(m, c, Effective(i) / InputDerating(c, i));
  }

  lemma NextOrder(m: Functions, c: Config, u: real, i: Input)
    requires m.Valid() && c.Valid() && 0.0 <= u <= c.maxMultiple && i.elapsed > 0.0
    ensures var v, e := NextUtilization(m, c, u, i), InputEquilibrium(m, c, i);
            0.0 <= v <= c.maxMultiple && (u <= e ==> u <= v <= e) && (e <= u ==> e <= v <= u)
  {
    InputEquilibriumNonNegative(m, c, i);
    DecayRange(m, c, i.elapsed);
    ClampedOrder(u, InputEquilibrium(m, c, i), Decay(m, c, i.elapsed), c.maxMultiple);
  }

  /** Two steps under the same held inputs are one step over the summed interval. */
  lemma TwoStepsAreOne(m: Functions, c: Config, s: State, i: Input, j: Input)
    requires m.Valid() && c.Valid() && Coherent(c, s)
    requires InputValid(i) && InputValid(j) && SameHeld(i, j)
    ensures SameThermal(Advance(m, c, Advance(m, c, s, i), j), Advance(m, c, s, i.(elapsed := i.elapsed + j.elapsed)))
  {
    NextComposes(m, c, s.utilization, i, j);
    NextOrder(m, c, s.utilization, i);
    NextOrder(m, c, NextUtilization(m, c, s.utilization, i), j);
    assert Effective(j) == Effective(i);
  }

  function Total(inputs: seq<Input>): real {
    if inputs == [] then 0.0 else inputs[0].elapsed + Total(inputs[1..])
  }

  lemma {:induction false} RunSame(m: Functions, c: Config, s: State, t: State, inputs: seq<Input>)
    requires m.Valid() && SameThermal(s, t)
    ensures SameThermal(Run(m, c, s, inputs), Run(m, c, t, inputs))
    decreases |inputs|
  {
    if inputs != [] {
      AdvanceSame(m, c, s, t, inputs[0]);
      RunSame(m, c, Advance(m, c, s, inputs[0]), Advance(m, c, t, inputs[0]), inputs[1..]);
    }
  }

  /** Any way of cutting an interval into steps under held inputs ends where the single step does. */
  lemma {:induction false} SubdivisionInvariant(m: Functions, c: Config, s: State, pieces: seq<Input>)
    requires m.Valid() && c.Valid() && Coherent(c, s) && pieces != []
    requires forall k | 0 <= k < |pieces| :: InputValid(pieces[k]) && SameHeld(pieces[0], pieces[k])
    ensures SameThermal(Run(m, c, s, pieces), Advance(m, c, s, pieces[0].(elapsed := Total(pieces))))
    decreases |pieces|
  {
    var i, rest := pieces[0], pieces[1..];
    if rest == [] {
      assert Total(pieces) == i.elapsed;
      assert Run(m, c, s, pieces) == Run(m, c, Advance(m, c, s, i), rest);
    } else {
      var j := rest[0];
      var merged := i.(elapsed := i.elapsed + j.elapsed);
      var shorter := [merged] + rest[1..];
      TwoStepsAreOne(m, c, s, i, j);
      assert Run(m, c, s, pieces) == Run(m, c, Advance(m, c, Advance(m, c, s, i), j), rest[1..]) by {
        assert Run(m, c, Advance(m, c, s, i), rest) == Run(m, c, Advance(m, c, Advance(m, c, s, i), j), rest[1..]);
      }
      assert shorter[1..] == rest[1..];
      RunSame(m, c, Advance(m, c, Advance(m, c, s, i), j), Advance(m, c, s, merged), rest[1..]);
      assert Run(m, c, s, shorter) == Run(m, c, Advance(m, c, s, merged), rest[1..]);
      assert Total(pieces) == Total(shorter) by { assert Total(rest) == j.elapsed + Total(rest[1..]); }
      SubdivisionInvariant(m, c, s, shorter);
      assert merged.(elapsed := Total(shorter)) == i.(elapsed := Total(pieces));
    }
  }
}
