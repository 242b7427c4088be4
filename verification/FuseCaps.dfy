/** Soundness, accuracy and order of the fuse observer's current caps, and its agreement with the
    melting curve. */
module FuseCaps {
  import opened Reals
  import opened Elementary
  import opened Bisection
  import opened FuseCurve
  import opened FuseObserver
  import opened FuseProperties

  // ----- prediction -----

  lemma EquivalentMonotone(x: real, y: real, u: real, v: real, du: real, dv: real)
    requires x <= y && 0.0 <= u <= v && 0.0 < dv <= du
    ensures 0.0 <= Equivalent(x, u, du) <= Equivalent(y, v, dv)
  {
    var p, q := Max(0.0, x) + u, Max(0.0, y) + v;
    QuotientSign(p, du);
    QuotientMonotone(p, q, du);
    QuotientAntitone(dv, du, q);
  }

  lemma PredictMonotone(m: Functions, c: Config, p: real, q: real, x: real, y: real, u: real, v: real, du: real, dv: real, h: real)
    requires m.Valid() && c.Valid() && FitMeetsTable(m, c)
    requires p <= q && x <= y && 0.0 <= u <= v && 0.0 < dv <= du && h > 0.0
    ensures Predict(m, c, p, x, u, du, h) <= Predict(m, c, q, y, v, dv, h)
  {
    EquivalentMonotone(x, y, u, v, du, dv);
    EquilibriumMonotone(m, c, Equivalent(x, u, du), Equivalent(y, v, dv));
    DecayRange(m, c, h);
    RelaxedMonotone(p, q, Equilibrium(m, c, Equivalent(x, u, du)), Equilibrium(m, c, Equivalent(y, v, dv)), Decay(m, c, h));
  }

  lemma FitsDownwardClosed(m: Functions, c: Config, p: real, u: real, d: real, h: real, limit: real)
    requires m.Valid() && c.Valid() && FitMeetsTable(m, c) && u >= 0.0 && d > 0.0 && h > 0.0
    ensures DownwardClosed(Fits(m, c, p, u, d, h), 0.0, limit)
  {
    forall x: real, y: real | 0.0 <= x <= y <= limit && Fits(m, c, p, u, d, h)(y)
      ensures Fits(m, c, p, u, d, h)(x)
    {
      PredictMonotone(m, c, p, p, x, y, u, u, d, d, h);
    }
  }

  lemma CapInRange(m: Functions, c: Config, s: State, limit: real, u: real, d: real, h: real)
    requires m.Valid() && c.Valid() && d > 0.0 && limit >= 0.0
    ensures 0.0 <= Cap(m, c, s, limit, u, d, h) <= limit
    ensures Cap(m, c, s, limit, u, d, h) > 0.0 ==>
              !s.exhausted && Predict(m, c, s.utilization, Cap(m, c, s, limit, u, d, h), u, d, h) <= 1.0
  {
    if !s.exhausted && limit > 0.0 {
      LowerInBracket(Fits(m, c, s.utilization, u, d, h), 0.0, limit, PROBES);
    }
  }

  // ----- accuracy -----

  /** Sixty-four halvings leave limit/2^64. */
  lemma CapResolution(limit: real)
    ensures Width(limit, PROBES) * 0x1_0000_0000_0000_0000 as real == limit
  {
    assert TwoTo(8) == 256;
    TwoToAdds(8, 8);
    TwoToAdds(16, 16);
    TwoToAdds(32, 32);
    WidthIsQuotient(limit, PROBES);
  }

  /** No feasible current up to the static limit exceeds the cap by more than the final bracket. */
  lemma CapIsClose(m: Functions, c: Config, s: State, limit: real, u: real, d: real, h: real, x: real)
    requires m.Valid() && c.Valid() && FitMeetsTable(m, c) && u >= 0.0 && d > 0.0 && h > 0.0
    requires !s.exhausted && 0.0 <= x <= limit && Predict(m, c, s.utilization, x, u, d, h) <= 1.0
    ensures x <= Cap(m, c, s, limit, u, d, h) + Width(limit, PROBES)
  {
    CapInRange(m, c, s, limit, u, d, h);
    var fits := Fits(m, c, s.utilization, u, d, h);
    WidthNonNegative(limit, PROBES);
    if limit > 0.0 && !fits(limit) {
      FitsDownwardClosed(m, c, s.utilization, u, d, h, limit);
      PassingIsClose(fits, limit, PROBES, x);
    }
  }

  lemma PassingIsClose(p: real -> bool, limit: real, n: nat, x: real)
    requires limit > 0.0 && DownwardClosed(p, 0.0, limit) && !p(limit) && 0.0 <= x <= limit && p(x)
    ensures x <= Lower(p, 0.0, limit, n) + Width(limit, n)
  {
    assert limit - 0.0 == limit;
    LowerIsClose(p, 0.0, limit, n, x);
  }

  // ----- soundness -----

  lemma UnderComposes(m: Functions, c: Config, u: real, v: real, e: real, t: real, rest: real)
    requires m.Valid() && c.Valid() && rest >= 0.0 && v <= Relaxed(u, e, Decay(m, c, t))
    ensures Relaxed(v, e, Decay(m, c, rest)) <= Relaxed(u, e, Decay(m, c, t + rest))
  {
    var d, g := Decay(m, c, t), Decay(m, c, rest);
    DecayRange(m, c, rest);
    RelaxedMonotone(v, Relaxed(u, e, d), e, e, g);
    RelaxedCompose(u, e, d, g);
    DecayAdds(m, c, t, rest);
  }

  /** One step stays in range and, relaxing further towards e, under the relaxation from before it. */
  lemma OneStepUnder(m: Functions, c: Config, s: State, i: Input, e: real, rest: real)
    requires m.Valid() && c.Valid() && 0.0 <= s.utilization <= c.maxMultiple && rest >= 0.0
    requires InputValid(i) && InputEquilibrium(m, c, i) <= e
    ensures var u := Advance(m, c, s, i).utilization;
      && 0.0 <= u <= c.maxMultiple
      && Relaxed(u, e, Decay(m, c, rest)) <= Relaxed(s.utilization, e, Decay(m, c, i.elapsed + rest))
  {
    InputEquilibriumNonNegative(m, c, i);
    DecayRange(m, c, i.elapsed);
    var d := Decay(m, c, i.elapsed);
    RelaxedMonotone(s.utilization, s.utilization, InputEquilibrium(m, c, i), e, d);
    RelaxedBetween(s.utilization, InputEquilibrium(m, c, i), d);
    UnderComposes(m, c, s.utilization, Advance(m, c, s, i).utilization, e, i.elapsed, rest);
  }

  lemma NoTimeNoDecay(m: Functions, c: Config, u: real, e: real)
    requires m.Valid() && c.Valid()
    ensures Relaxed(u, e, Decay(m, c, 0.0)) == u
  {
    ExpZero(m);
    assert 0.0 / c.tau == 0.0;
  }

  /** Every input is valid and pulls towards no more than e. */
  ghost predicate AllUnder(m: Functions, c: Config, inputs: seq<Input>, e: real)
    requires m.Valid() && c.Valid()
  {
    forall k | 0 <= k < |inputs| :: InputValid(inputs[k]) && InputEquilibrium(m, c, inputs[k]) <= e
  }

  lemma {:induction false} TotalOfValid(inputs: seq<Input>)
    requires forall k | 0 <= k < |inputs| :: InputValid(inputs[k])
    ensures Total(inputs) >= 0.0
    decreases |inputs|
  {
    if inputs != [] { TotalOfValid(inputs[1..]); }
  }

  lemma {:induction false} TailUnder(m: Functions, c: Config, inputs: seq<Input>, e: real)
    requires m.Valid() && c.Valid() && AllUnder(m, c, inputs, e) && inputs != []
    ensures AllUnder(m, c, inputs[1..], e) && Total(inputs[1..]) >= 0.0
  {
    forall k | 0 <= k < |inputs[1..]| ensures inputs[1..][k] == inputs[k + 1] { }
    TotalOfValid(inputs[1..]);
  }

  /** One step under e, and the rest of the run under it, are the run under it. */
  lemma {:induction false} StepThenRest(m: Functions, c: Config, s: State, inputs: seq<Input>, e: real, after: real)
    requires m.Valid() && c.Valid() && 0.0 <= s.utilization <= c.maxMultiple && inputs != [] && Total(inputs[1..]) >= 0.0
    requires InputValid(inputs[0]) && InputEquilibrium(m, c, inputs[0]) <= e
    requires after <= Relaxed(Advance(m, c, s, inputs[0]).utilization, e, Decay(m, c, Total(inputs[1..])))
    ensures after <= Relaxed(s.utilization, e, Decay(m, c, Total(inputs)))
  {
    OneStepUnder(m, c, s, inputs[0], e, Total(inputs[1..]));
  }

  lemma StepInRange(m: Functions, c: Config, s: State, i: Input)
    requires m.Valid() && c.Valid() && 0.0 <= s.utilization <= c.maxMultiple
    ensures 0.0 <= Advance(m, c, s, i).utilization <= c.maxMultiple
  {
  }

  /** A run whose equilibria never exceed e stays under the single relaxation towards e. */
  lemma {:induction false} RunUnder(m: Functions, c: Config, s: State, inputs: seq<Input>, e: real)
    requires m.Valid() && c.Valid() && 0.0 <= s.utilization <= c.maxMultiple && AllUnder(m, c, inputs, e)
    ensures Run(m, c, s, inputs).utilization <= Relaxed(s.utilization, e, Decay(m, c, Total(inputs)))
    decreases |inputs|
  {
    if inputs == [] {
      NoTimeNoDecay(m, c, s.utilization, e);
    } else {
      TailUnder(m, c, inputs, e);
      StepInRange(m, c, s, inputs[0]);
      RunUnder(m, c, Advance(m, c, s, inputs[0]), inputs[1..], e);
      StepThenRest(m, c, s, inputs, e, Run(m, c, s, inputs).utilization);
    }
  }

  /** Between a start below 1 and an end below 1, relaxation never exceeds 1. */
  lemma NeverAboveOne(m: Functions, c: Config, u: real, e: real, t: real, h: real)
    requires m.Valid() && c.Valid() && 0.0 <= t <= h && u <= 1.0
    requires Relaxed(u, e, Decay(m, c, h)) <= 1.0
    ensures Relaxed(u, e, Decay(m, c, t)) <= 1.0
  {
    DecayAntitone(m, c, t, h);
    DecayRange(m, c, t);
    RelaxedBetween(u, e, Decay(m, c, t));
    RelaxedInDecay(u, e, Decay(m, c, h), Decay(m, c, t));
  }

  lemma EquilibriumUpTo(m: Functions, c: Config, i: Input, cap: real)
    requires m.Valid() && c.Valid() && FitMeetsTable(m, c) && InputValid(i) && Abs(i.current) <= cap
    ensures InputDerating(c, i) > 0.0
    ensures InputEquilibrium(m, c, i) <= Equilibrium(m, c, Equivalent(cap, i.uncertainty, InputDerating(c, i)))
  {
    DeratingAntitone(FuseTemperature(c, i), FuseTemperature(c, i), c.minDerating);
    var d := InputDerating(c, i);
    EquivalentMonotone(Abs(i.current), cap, i.uncertainty, i.uncertainty, d, d);
    EquilibriumMonotone(m, c, Effective(i) / d, Equivalent(cap, i.uncertainty, d));
  }

  /** Drawing any currents of magnitude up to a positive cap, in any steps within the horizon, keeps
      the utilisation at or below 1 throughout. */
  lemma CapIsSound(m: Functions, c: Config, s: State, limit: real, u: real, d: real, h: real, inputs: seq<Input>)
    requires m.Valid() && c.Valid() && FitMeetsTable(m, c) && Coherent(c, s)
    requires limit >= 0.0 && u >= 0.0 && d > 0.0 && h > 0.0
    requires Cap(m, c, s, limit, u, d, h) > 0.0
    requires forall k | 0 <= k < |inputs| ::
      && InputValid(inputs[k]) && inputs[k].uncertainty == u && InputDerating(c, inputs[k]) == d
      && Abs(inputs[k].current) <= Cap(m, c, s, limit, u, d, h)
    requires Total(inputs) <= h
    ensures Run(m, c, s, inputs).utilization <= 1.0
  {
    var cap := Cap(m, c, s, limit, u, d, h);
    CapInRange(m, c, s, limit, u, d, h);
    var e := Equilibrium(m, c, Equivalent(cap, u, d));
    forall k | 0 <= k < |inputs| ensures InputEquilibrium(m, c, inputs[k]) <= e {
      EquilibriumUpTo(m, c, inputs[k], cap);
    }
    RunUnder(m, c, s, inputs, e);
    TotalOfValid(inputs);
    NeverAboveOne(m, c, s.utilization, e, Total(inputs), h);
  }

  lemma {:induction false} CapsAt(m: Functions, c: Config, s: State, limits: seq<real>, u: real, d: real, n: nat, h: nat)
    requires m.Valid() && c.Valid() && d > 0.0 && h < n <= HORIZONS && |limits| == HORIZONS
    ensures Caps(m, c, s, limits, u, d, n)[h] == Cap(m, c, s, limits[h], u, d, c.horizons[h])
  {
    if h < n - 1 { CapsAt(m, c, s, limits, u, d, n - 1, h); }
  }

  /** The same for the caps a valid step reports, in either direction. */
  lemma ReportedCapsAreSound(m: Functions, c: Config, s: State, i: Input, h: nat, charge: bool, inputs: seq<Input>)
    requires m.Valid() && c.Valid() && FitMeetsTable(m, c) && Coherent(c, s) && InputValid(i) && h < HORIZONS
    requires var r := Report(m, c, Advance(m, c, s, i), i);
      var cap := if charge then r.chargeCaps[h] else r.dischargeCaps[h];
      && cap > 0.0 && Total(inputs) <= c.horizons[h]
      && forall k | 0 <= k < |inputs| ::
        && InputValid(inputs[k]) && inputs[k].uncertainty == i.uncertainty
        && FuseTemperature(c, inputs[k]) == FuseTemperature(c, i) && Abs(inputs[k].current) <= cap
    ensures Run(m, c, Advance(m, c, s, i), inputs).utilization <= 1.0
  {
    var after := Advance(m, c, s, i);
    AdvanceCoherent(m, c, s, i);
    DeratingAntitone(FuseTemperature(c, i), FuseTemperature(c, i), c.minDerating);
    var d := InputDerating(c, i);
    var limits := if charge then c.chargeCaps else c.dischargeCaps;
    CapsAt(m, c, after, c.chargeCaps, i.uncertainty, d, HORIZONS, h);
    CapsAt(m, c, after, c.dischargeCaps, i.uncertainty, d, HORIZONS, h);
    CapIsSound(m, c, after, limits[h], i.uncertainty, d, c.horizons[h], inputs);
  }

  // ----- order -----

  /** Everything a cap depends on besides its limit and horizon. */
  datatype Situation = Situation(state: State, uncertainty: real, derating: real)

  /** b is in no respect better placed than a. */
  ghost predicate NoBetter(a: Situation, b: Situation) {
    && a.state.utilization <= b.state.utilization && (a.state.exhausted ==> b.state.exhausted)
    && 0.0 <= a.uncertainty <= b.uncertainty && 0.0 < b.derating <= a.derating
  }

  ghost function CapIn(m: Functions, c: Config, a: Situation, limit: real, h: real): real
    requires m.Valid() && c.Valid() && a.derating > 0.0
  {
    Cap(m, c, a.state, limit, a.uncertainty, a.derating, h)
  }

  lemma FitsWeaker(m: Functions, c: Config, a: Situation, b: Situation, limit: real, h: real)
    requires m.Valid() && c.Valid() && FitMeetsTable(m, c) && NoBetter(a, b) && h > 0.0
    ensures forall x: real | 0.0 <= x <= limit ::
      Fits(m, c, b.state.utilization, b.uncertainty, b.derating, h)(x) ==> Fits(m, c, a.state.utilization, a.uncertainty, a.derating, h)(x)
  {
    forall x: real | 0.0 <= x <= limit && Fits(m, c, b.state.utilization, b.uncertainty, b.derating, h)(x)
      ensures Fits(m, c, a.state.utilization, a.uncertainty, a.derating, h)(x)
    {
      PredictMonotone(m, c, a.state.utilization, b.state.utilization, x, x, a.uncertainty, b.uncertainty, a.derating, b.derating, h);
    }
  }

  lemma CapMonotone(m: Functions, c: Config, a: Situation, b: Situation, limit: real, h: real)
    requires m.Valid() && c.Valid() && FitMeetsTable(m, c) && NoBetter(a, b) && limit >= 0.0 && h > 0.0
    ensures CapIn(m, c, b, limit, h) <= CapIn(m, c, a, limit, h)
  {
    CapInRange(m, c, a.state, limit, a.uncertainty, a.derating, h);
    CapInRange(m, c, b.state, limit, b.uncertainty, b.derating, h);
    if !b.state.exhausted && limit > 0.0 {
      FitsWeaker(m, c, a, b, limit, h);
      LowerDominates(Fits(m, c, b.state.utilization, b.uncertainty, b.derating, h),
                     Fits(m, c, a.state.utilization, a.uncertainty, a.derating, h), 0.0, limit, PROBES);
      PredictMonotone(m, c, a.state.utilization, b.state.utilization, limit, limit, a.uncertainty, b.uncertainty, a.derating, b.derating, h);
    }
  }

  ghost predicate CapsFollowOrder(m: Functions, c: Config)
    requires m.Valid() && c.Valid()
  {
    forall a: Situation, b: Situation, limit: real, h: real | NoBetter(a, b) && limit >= 0.0 && h > 0.0 ::
      CapIn(m, c, b, limit, h) <= CapIn(m, c, a, limit, h)
  }

  /** The usable melting time is where one relaxation from zero reaches exactly 1. */
  lemma DoseAtUsableTime(m: Functions, c: Config, current: real)
    requires m.Valid() && c.Valid() && Usable(m, c, current).Seconds?
    ensures Relaxed(0.0, Equilibrium(m, c, current), Decay(m, c, Usable(m, c, current).s)) == 1.0
  {
    var u := Usable(m, c, current).s;
    UsablePositive(m, c, current);
    KernelPositive(m, c.tau, u);
    var k, d := Kernel(m, c.tau, u), Decay(m, c, u);
    InverseProduct(k, c.tau, 1.0 - d);
    assert SourceRate(m, c, current) == 1.0 / k;
    assert Times(0.0, d) == 0.0;
  }

  lemma InverseProduct(k: real, tau: real, share: real)
    requires k > 0.0 && k == tau * share
    ensures Times(Times(1.0 / k, tau), share) == 1.0
  {
    var r := 1.0 / k;
    assert r * k == 1.0;
    assert (r * tau) * share == r * (tau * share);
  }

  /** Where the fit falls short of the table, a worse-placed observer gets the larger cap. */
  lemma MismatchBreaksCaps(m: Functions, c: Config)
    requires m.Valid() && c.Valid() && !FitMeetsTable(m, c)
    ensures !CapsFollowOrder(m, c)
  {
    var first := CURVE[0].current;
    var x := MismatchBreaksOrder(m, c);
    RateNonNegative(m, c, first);
    assert x > c.rated;
    UsableAtFirstPoint(m, c);
    var h := Usable(m, c, first).s;
    var a, b := Situation(INITIAL, x - 1.0, 1.0), Situation(INITIAL, first - 1.0, 1.0);
    assert (Max(0.0, 1.0) + a.uncertainty) / 1.0 == x && (Max(0.0, 1.0) + b.uncertainty) / 1.0 == first;
    DoseAtUsableTime(m, c, first);
    DecayRange(m, c, h);
    ScaleIncreasing(SourceRate(m, c, first), SourceRate(m, c, x), c.tau);
    var e, f, d := Equilibrium(m, c, first), Equilibrium(m, c, x), Decay(m, c, h);
    assert e < f;
    ScaleIncreasing(e, f, 1.0 - d);
    assert Predict(m, c, 0.0, 1.0, b.uncertainty, 1.0, h) == 1.0;
    assert Predict(m, c, 0.0, 1.0, a.uncertainty, 1.0, h) > 1.0;
    LowerBelowTop(Fits(m, c, 0.0, a.uncertainty, 1.0, h), 0.0, 1.0, PROBES);
    assert CapIn(m, c, b, 1.0, h) > CapIn(m, c, a, 1.0, h);
    assert NoBetter(a, b);
  }

  /** Caps follow the order of situations, for all of them, exactly when the fit meets the table. */
  lemma CapsFollowOrderIffFitMeetsTable(m: Functions, c: Config)
    requires m.Valid() && c.Valid()
    ensures CapsFollowOrder(m, c) <==> FitMeetsTable(m, c)
  {
    if FitMeetsTable(m, c) {
      forall a: Situation, b: Situation, limit: real, h: real | NoBetter(a, b) && limit >= 0.0 && h > 0.0
        ensures CapIn(m, c, b, limit, h) <= CapIn(m, c, a, limit, h)
      {
        CapMonotone(m, c, a, b, limit, h);
      }
    } else {
      MismatchBreaksCaps(m, c);
    }
  }

  // ----- two runs -----

  /** One step's input is at least as demanding as another's over the same interval. */
  ghost predicate InputNoEasier(c: Config, i: Input, j: Input) {
    && (InputValid(i) <==> InputValid(j)) && i.elapsed == j.elapsed
    && Abs(i.current) <= Abs(j.current) && i.uncertainty <= j.uncertainty
    && FuseTemperature(c, i) <= FuseTemperature(c, j)
  }

  ghost predicate StateNoBetter(s: State, t: State) {
    s.utilization <= t.utilization && (s.exhausted ==> t.exhausted)
  }

  lemma EquilibriumFollowsInput(m: Functions, c: Config, i: Input, j: Input)
    requires m.Valid() && c.Valid() && FitMeetsTable(m, c) && InputNoEasier(c, i, j) && InputValid(i)
    ensures InputEquilibrium(m, c, i) <= InputEquilibrium(m, c, j)
  {
    DeratingAntitone(FuseTemperature(c, i), FuseTemperature(c, j), c.minDerating);
    EquivalentMonotone(Abs(i.current), Abs(j.current), i.uncertainty, j.uncertainty, InputDerating(c, i), InputDerating(c, j));
    EquilibriumMonotone(m, c, Effective(i) / InputDerating(c, i), Effective(j) / InputDerating(c, j));
  }

  lemma AdvanceKeepsOrder(m: Functions, c: Config, s: State, t: State, i: Input, j: Input)
    requires m.Valid() && c.Valid() && FitMeetsTable(m, c) && StateNoBetter(s, t) && InputNoEasier(c, i, j)
    ensures StateNoBetter(Advance(m, c, s, i), Advance(m, c, t, j))
  {
    if InputValid(i) {
      EquilibriumFollowsInput(m, c, i, j);
      DecayRange(m, c, i.elapsed);
      RelaxedMonotone(s.utilization, t.utilization, InputEquilibrium(m, c, i), InputEquilibrium(m, c, j), Decay(m, c, i.elapsed));
    }
  }

  lemma {:induction false} RunKeepsOrder(m: Functions, c: Config, s: State, t: State, mild: seq<Input>, harsh: seq<Input>)
    requires m.Valid() && c.Valid() && FitMeetsTable(m, c) && StateNoBetter(s, t)
    requires |mild| == |harsh| && forall k | 0 <= k < |mild| :: InputNoEasier(c, mild[k], harsh[k])
    ensures StateNoBetter(Run(m, c, s, mild), Run(m, c, t, harsh))
    decreases |mild|
  {
    if mild != [] {
      AdvanceKeepsOrder(m, c, s, t, mild[0], harsh[0]);
      RunKeepsOrder(m, c, Advance(m, c, s, mild[0]), Advance(m, c, t, harsh[0]), mild[1..], harsh[1..]);
    }
  }

  /** After any two runs of which the second is never easier, every cap reported for a further such
      step is no larger in the second. */
  lemma HarderRunNeverGetsLargerCaps(m: Functions, c: Config, s: State, t: State, mild: seq<Input>, harsh: seq<Input>, i: Input, j: Input, h: nat)
    requires m.Valid() && c.Valid() && FitMeetsTable(m, c) && StateNoBetter(s, t) && h < HORIZONS
    requires |mild| == |harsh| && forall k | 0 <= k < |mild| :: InputNoEasier(c, mild[k], harsh[k])
    requires InputNoEasier(c, i, j) && InputValid(i)
    ensures var r := Report(m, c, Advance(m, c, Run(m, c, s, mild), i), i);
            var q := Report(m, c, Advance(m, c, Run(m, c, t, harsh), j), j);
            q.dischargeCaps[h] <= r.dischargeCaps[h] && q.chargeCaps[h] <= r.chargeCaps[h]
  {
    RunKeepsOrder(m, c, s, t, mild, harsh);
    AdvanceKeepsOrder(m, c, Run(m, c, s, mild), Run(m, c, t, harsh), i, j);
    DeratingAntitone(FuseTemperature(c, i), FuseTemperature(c, j), c.minDerating);
    var a := Situation(Advance(m, c, Run(m, c, s, mild), i), i.uncertainty, InputDerating(c, i));
    var b := Situation(Advance(m, c, Run(m, c, t, harsh), j), j.uncertainty, InputDerating(c, j));
    CapMonotone(m, c, a, b, c.dischargeCaps[h], c.horizons[h]);
    CapMonotone(m, c, a, b, c.chargeCaps[h], c.horizons[h]);
    CapsAt(m, c, a.state, c.dischargeCaps, a.uncertainty, a.derating, HORIZONS, h);
    CapsAt(m, c, a.state, c.chargeCaps, a.uncertainty, a.derating, HORIZONS, h);
    CapsAt(m, c, b.state, c.dischargeCaps, b.uncertainty, b.derating, HORIZONS, h);
    CapsAt(m, c, b.state, c.chargeCaps, b.uncertainty, b.derating, HORIZONS, h);
  }

  // ----- agreement with the curve -----

  /** The relaxation from zero under an overcurrent passes 1 at the usable melting time. */
  lemma DoseOrder(m: Functions, c: Config, x: real, t: real)
    requires m.Valid() && c.Valid() && x > c.rated && t >= 0.0
    ensures Usable(m, c, x).Seconds?
    ensures Relaxed(0.0, Equilibrium(m, c, x), Decay(m, c, t)) >= 1.0 <==> t >= Usable(m, c, x).s
  {
    OverloadMonotone(c, x, x);
    var u, e := Usable(m, c, x).s, Equilibrium(m, c, x);
    DoseAtUsableTime(m, c, x);
    EquilibriumNonNegative(m, c, x);
    if t >= u {
      DecayAntitone(m, c, u, t);
      RelaxedInDecay(0.0, e, Decay(m, c, t), Decay(m, c, u));
    } else {
      DecayAntitone(m, c, t, u);
      DoseBefore(e, Decay(m, c, t), Decay(m, c, u));
    }
  }

  lemma DoseBefore(e: real, g: real, d: real)
    requires e >= 0.0 && d < g && Relaxed(0.0, e, d) == 1.0
    ensures Relaxed(0.0, e, g) < 1.0
  {
    assert Times(0.0, d) == 0.0 && Times(0.0, g) == 0.0;
    ScaleMonotone(1.0 - g, 1.0 - d, e);
    if 0.0 < e { ScaleIncreasing(1.0 - g, 1.0 - d, e); }
  }

  /** From zero utilisation, a held overcurrent reaches 1 exactly when the usable melting time has
      passed, however the interval is cut into steps. */
  lemma ReachesOneAtMeltTime(m: Functions, c: Config, s: State, pieces: seq<Input>)
    requires m.Valid() && c.Valid() && Coherent(c, s) && s.utilization == 0.0 && pieces != []
    requires forall k | 0 <= k < |pieces| :: InputValid(pieces[k]) && SameHeld(pieces[0], pieces[k])
    requires Effective(pieces[0]) > Times(c.rated, InputDerating(c, pieces[0]))
    ensures var d := InputDerating(c, pieces[0]);
            && d > 0.0 && Usable(m, c, Effective(pieces[0]) / d).Seconds?
            && (Run(m, c, s, pieces).utilization >= 1.0 <==> Total(pieces) >= Usable(m, c, Effective(pieces[0]) / d).s)
  {
    TotalPositive(pieces);
    SubdivisionInvariant(m, c, s, pieces);
    OneStepDose(m, c, pieces[0].(elapsed := Total(pieces)));
  }

  lemma OneStepDose(m: Functions, c: Config, i: Input)
    requires m.Valid() && c.Valid() && InputValid(i) && Effective(i) > Times(c.rated, InputDerating(c, i))
    ensures var d := InputDerating(c, i);
            && d > 0.0 && Usable(m, c, Effective(i) / d).Seconds?
            && (NextUtilization(m, c, 0.0, i) >= 1.0 <==> i.elapsed >= Usable(m, c, Effective(i) / d).s)
  {
    DeratingAntitone(FuseTemperature(c, i), FuseTemperature(c, i), c.minDerating);
    QuotientCompare(Effective(i), c.rated, InputDerating(c, i));
    DoseOrder(m, c, Effective(i) / InputDerating(c, i), i.elapsed);
  }

  lemma {:induction false} TotalPositive(pieces: seq<Input>)
    requires forall k | 0 <= k < |pieces| :: InputValid(pieces[k])
    ensures Total(pieces) >= 0.0 && (pieces != [] ==> Total(pieces) > 0.0)
    decreases |pieces|
  {
    if pieces != [] { TotalPositive(pieces[1..]); }
  }

  ghost predicate WithinRating(c: Config, i: Input)
    requires c.Valid()
  {
    InputValid(i) && Effective(i) <= Times(c.rated, InputDerating(c, i))
  }

  lemma NoHeatWithinRating(m: Functions, c: Config, i: Input)
    requires m.Valid() && c.Valid() && WithinRating(c, i)
    ensures InputEquilibrium(m, c, i) == 0.0
  {
    DeratingAntitone(FuseTemperature(c, i), FuseTemperature(c, i), c.minDerating);
    QuotientCompare(Effective(i), c.rated, InputDerating(c, i));
    QuotientSign(Effective(i), InputDerating(c, i));
    assert Times(0.0, c.tau) == 0.0;
  }

  lemma CoolStep(m: Functions, c: Config, s: State, i: Input)
    requires m.Valid() && c.Valid() && Coherent(c, s) && WithinRating(c, i)
    ensures var n := Advance(m, c, s, i);
            && n.utilization == Times(s.utilization, Decay(m, c, i.elapsed)) && 0.0 <= n.utilization <= s.utilization
            && n.exhausted == (s.exhausted && n.utilization > 0.5)
  {
    NoHeatWithinRating(m, c, i);
    DecayRange(m, c, i.elapsed);
    FractionShrinks(s.utilization, Decay(m, c, i.elapsed));
    assert Times(0.0, 1.0 - Decay(m, c, i.elapsed)) == 0.0;
  }

  /** Currents within the derated rating, however they vary, never raise the utilisation; it decays
      exactly, and a set latch clears exactly when it has fallen to one half. */
  lemma {:induction false} CoolsWithinRating(m: Functions, c: Config, s: State, inputs: seq<Input>)
    requires m.Valid() && c.Valid() && Coherent(c, s)
    requires forall k | 0 <= k < |inputs| :: WithinRating(c, inputs[k])
    ensures Run(m, c, s, inputs).utilization == Times(s.utilization, Decay(m, c, Total(inputs)))
    ensures 0.0 <= Run(m, c, s, inputs).utilization <= s.utilization
    ensures Run(m, c, s, inputs).exhausted == (s.exhausted && Run(m, c, s, inputs).utilization > 0.5)
    decreases |inputs|
  {
    if inputs == [] {
      ExpZero(m);
      assert 0.0 / c.tau == 0.0;
    } else {
      var i, rest := inputs[0], inputs[1..];
      CoolStep(m, c, s, i);
      AdvanceCoherent(m, c, s, i);
      CoolsWithinRating(m, c, Advance(m, c, s, i), rest);
      DecayAdds(m, c, i.elapsed, Total(rest));
      TimesAssociates(s.utilization, Decay(m, c, i.elapsed), Decay(m, c, Total(rest)));
    }
  }

  lemma TimesAssociates(a: real, b: real, d: real)
    ensures Times(Times(a, b), d) == Times(a, Times(b, d))
  {
  }

  /** The cooling time after which a set latch clears is tau * ln(2u): no sooner and no later. */
  lemma {:induction false} LatchClearsAfter(m: Functions, c: Config, s: State, inputs: seq<Input>)
    requires m.Valid() && c.Valid() && Coherent(c, s) && s.exhausted
    requires forall k | 0 <= k < |inputs| :: WithinRating(c, inputs[k])
    ensures s.utilization > 0.5
    ensures Run(m, c, s, inputs).exhausted <==> Total(inputs) < Times(m.ln(2.0 * s.utilization), c.tau)
  {
    CoolsWithinRating(m, c, s, inputs);
    ClearedWhenHalved(m, c, s.utilization, Total(inputs), Run(m, c, s, inputs).utilization);
  }

  lemma ClearedWhenHalved(m: Functions, c: Config, u: real, t: real, after: real)
    requires m.Valid() && c.Valid() && u > 0.0 && after == Times(u, Decay(m, c, t))
    ensures after > 0.5 <==> t < Times(m.ln(2.0 * u), c.tau)
  {
    HalvedBy(m, c, u, t);
  }

  lemma HalvedBy(m: Functions, c: Config, u: real, t: real)
    requires m.Valid() && c.Valid() && u > 0.0
    ensures Times(u, Decay(m, c, t)) > 0.5 <==> t < Times(m.ln(2.0 * u), c.tau)
  {
    var z, l := t / c.tau, m.ln(2.0 * u);
    QuotientCompare(t, l, c.tau);
    ExpLn(m, 2.0 * u);
    ExpNegate(m, l);
    HalfLife(u, m.exp(l), m.exp(-l));
    if z < l {
      ExpIncreasing(m, -l, -z);
      ScaleIncreasing(m.exp(-l), m.exp(-z), u);
    } else {
      ExpMonotone(m, -z, -l);
      ScaleMonotone(m.exp(-z), m.exp(-l), u);
    }
  }

  lemma HalfLife(u: real, e: real, f: real)
    requires u > 0.0 && e == 2.0 * u && f * e == 1.0
    ensures Times(u, f) == 0.5
  {
  }
}
