/** One step of the fuse observer, its report and its predictions in closed form. */
module FuseSteps {
  import opened Reals
  import opened Elementary
  import opened Bisection
  import opened FuseCurve
  import opened FuseObserver
  import opened FuseCaps
  import opened FuseLaws

  // ----- the report -----

  lemma ReportedDerating(m: Functions, c: Config, s: State, i: Input)
    requires m.Valid() && c.Valid()
    ensures var r := Report(m, c, s, i); r.derating == InputDerating(c, i) > 0.0 && r.equivalent == Effective(i) / InputDerating(c, i)
  {
    DeratingAntitone(FuseTemperature(c, i), FuseTemperature(c, i), c.minDerating);
  }

  /** The measured quantities in a report: the current with its uncertainty, the temperature with its margin, the derated
      rating, and the current's equivalent at 25 C. */
  lemma ReportedInputs(m: Functions, c: Config, s: State, i: Input)
    requires m.Valid() && c.Valid()
    ensures var r := Report(m, c, s, i);
      && r.effective == (if i.current < 0.0 then -i.current else i.current) + i.uncertainty
      && r.fuseTemperature == (if i.atFuse then i.temperature else i.temperature + c.margin)
      && r.derating == Derating(r.fuseTemperature, c.minDerating) && r.derating > 0.0
      && r.continuous == Times(c.rated, r.derating) && r.equivalent == r.effective / r.derating
  {
    ReportedDerating(m, c, s, i);
  }

  lemma ReportedCurve(m: Functions, c: Config, s: State, i: Input)
    requires m.Valid() && c.Valid()
    ensures var r := Report(m, c, s, i); r.typical == MeltTime(m, c, r.equivalent) && r.usable == Usable(m, c, r.equivalent)
  {
  }

  lemma UsableIs(m: Functions, c: Config, x: real, t: Time, u: Time)
    requires m.Valid() && t == MeltTime(m, c, x) && u == Usable(m, c, x)
    ensures u == if t.Seconds? then Seconds(Limited(c, Times(t.s, c.fraction))) else Never
  {
  }

  /** The melting times in a report: the typical one at the reported equivalent current, and the configured fraction of it
      within the time limits. */
  lemma ReportedTimes(m: Functions, c: Config, s: State, i: Input)
    requires m.Valid() && c.Valid()
    ensures var r := Report(m, c, s, i);
      && r.typical == MeltTime(m, c, r.equivalent)
      && r.usable == if r.typical.Seconds? then Seconds(Limited(c, Times(r.typical.s, c.fraction))) else Never
  {
    var r := Report(m, c, s, i);
    ReportedCurve(m, c, s, i);
    UsableIs(m, c, r.equivalent, r.typical, r.usable);
  }

  /** What a report says of the state: authority takes a validated model and an initialised state. */
  lemma ReportedState(m: Functions, c: Config, s: State, i: Input)
    requires m.Valid() && c.Valid()
    ensures var r := Report(m, c, s, i);
      && r.utilization == s.utilization && r.remaining == (if s.utilization < 1.0 then 1.0 - s.utilization else 0.0)
      && r.valid && r.exhausted == s.exhausted && (r.authorityValid <==> i.modelValidated && s.initialized)
      && (r.extrapolated <==> CurveExtrapolated in r.reasons)
  {
  }

  // ----- one step -----

  /** A utilisation limited to zero and the configured multiple. */
  function Kept(c: Config, x: real): real { if x < 0.0 then 0.0 else if x > c.maxMultiple then c.maxMultiple else x }

  /** The share of the start that is left after a time. */
  function Share(m: Functions, c: Config, t: real): real
    requires c.tau > 0.0
  {
    m.exp(-(t / c.tau))
  }

  lemma RateOverShare(m: Functions, c: Config, u: real)
    requires m.Valid() && c.Valid() && u > 0.0
    ensures Share(m, c, u) < 1.0 && Kernel(m, c.tau, u) > 0.0
    ensures (1.0 / Kernel(m, c.tau, u)) * c.tau == 1.0 / (1.0 - Share(m, c, u))
  {
    QuotientSign(u, c.tau);
    ExpZero(m);
    ExpIncreasing(m, -(u / c.tau), 0.0);
    KernelPositive(m, c.tau, u);
    ReciprocalOfProduct(c.tau, 1.0 - Share(m, c, u), Kernel(m, c.tau, u));
  }

  lemma ReciprocalOfProduct(t: real, s: real, k: real)
    requires t > 0.0 && s > 0.0 && k == t * s && k > 0.0
    ensures (1.0 / k) * t == 1.0 / s
  {
    var q := 1.0 / k;
    assert q * k == 1.0;
    assert (q * t) * s == q * (t * s);
    UniqueReciprocal(q * t, s);
  }

  lemma UniqueReciprocal(x: real, s: real)
    requires s > 0.0 && x * s == 1.0
    ensures x == 1.0 / s
  {
    var y := 1.0 / s;
    assert y * s == 1.0;
    assert (x - y) * s == 0.0;
  }

  lemma RelaxedTo(u: real, e: real, a: real, b: real)
    requires b > 0.0 && e == 1.0 / b
    ensures Relaxed(u, e, a) == u * a + (1.0 - a) / b
  {
    assert (1.0 / b) * (1.0 - a) == (1.0 - a) / b;
  }

  lemma EquilibriumIs(m: Functions, c: Config, x: real)
    requires m.Valid() && c.Valid()
    ensures Usable(m, c, x).Seconds? ==>
      Share(m, c, Usable(m, c, x).s) < 1.0 && Equilibrium(m, c, x) == 1.0 / (1.0 - Share(m, c, Usable(m, c, x).s))
    ensures !Usable(m, c, x).Seconds? ==> Equilibrium(m, c, x) == 0.0
  {
    if Usable(m, c, x).Seconds? {
      UsablePositive(m, c, x);
      RateOverShare(m, c, Usable(m, c, x).s);
    } else {
      assert Times(0.0, c.tau) == 0.0;
    }
  }

  lemma HeldRelaxation(m: Functions, c: Config, x: real, u: real, a: real)
    requires m.Valid() && c.Valid()
    ensures Usable(m, c, x).Seconds? ==>
      && Share(m, c, Usable(m, c, x).s) < 1.0
      && Relaxed(u, Equilibrium(m, c, x), a) == u * a + (1.0 - a) / (1.0 - Share(m, c, Usable(m, c, x).s))
    ensures !Usable(m, c, x).Seconds? ==> Relaxed(u, Equilibrium(m, c, x), a) == u * a
  {
    EquilibriumIs(m, c, x);
    if Usable(m, c, x).Seconds? {
      RelaxedTo(u, Equilibrium(m, c, x), a, 1.0 - Share(m, c, Usable(m, c, x).s));
    } else {
      assert Times(0.0, 1.0 - a) == 0.0;
    }
  }

  lemma NextIs(m: Functions, c: Config, s: State, i: Input)
    requires m.Valid() && c.Valid() && InputValid(i)
    ensures InputDerating(c, i) > 0.0
    ensures Advance(m, c, s, i).utilization
         == Kept(c, Relaxed(s.utilization, Equilibrium(m, c, Effective(i) / InputDerating(c, i)), Decay(m, c, i.elapsed)))
  {
    DeratingAntitone(FuseTemperature(c, i), FuseTemperature(c, i), c.minDerating);
  }

  /** What a valid step leaves of a utilisation u0 when its current's usable melting time is this. */
  ghost predicate Leaves(m: Functions, c: Config, u0: real, usable: Time, t: real, raw: real)
    requires c.tau > 0.0
  {
    var a := Share(m, c, t);
    if usable.Seconds? then Share(m, c, usable.s) < 1.0 && raw == u0 * a + (1.0 - a) / (1.0 - Share(m, c, usable.s))
    else raw == u0 * a
  }

  lemma RelaxationLeaves(m: Functions, c: Config, x: real, u: real, t: real, usable: Time, raw: real)
    requires m.Valid() && c.Valid() && usable == Usable(m, c, x) && raw == Relaxed(u, Equilibrium(m, c, x), Decay(m, c, t))
    ensures Leaves(m, c, u, usable, t, raw)
  {
    HeldRelaxation(m, c, x, u, Share(m, c, t));
  }

  /** A valid step keeps the share a of the utilisation and adds the share 1 - a of what a held current settles at:
      nothing within the rating, and otherwise what reaches 1 from zero after the reported usable melting time. */
  lemma StepInClosedForm(m: Functions, c: Config, s: State, i: Input, n: State, r: Result) returns (raw: real)
    requires m.Valid() && c.Valid() && InputValid(i) && n == Advance(m, c, s, i) && r == Report(m, c, n, i)
    ensures n.utilization == Kept(c, raw) && Leaves(m, c, s.utilization, r.usable, i.elapsed, raw)
  {
    NextIs(m, c, s, i);
    ReportedDerating(m, c, n, i);
    ReportedCurve(m, c, n, i);
    raw := Relaxed(s.utilization, Equilibrium(m, c, r.equivalent), Decay(m, c, i.elapsed));
    RelaxationLeaves(m, c, r.equivalent, s.utilization, i.elapsed, r.usable, raw);
  }

  // ----- predictions -----

  /** The prediction for a candidate current is the utilisation after a step that draws it for the horizon. */
  lemma PredictionIsTheStep(m: Functions, c: Config, s: State, i: Input, candidate: real)
    requires m.Valid() && c.Valid() && InputValid(i) && candidate >= 0.0 && (i.current == candidate || i.current == -candidate)
    ensures InputDerating(c, i) > 0.0
    ensures Advance(m, c, s, i).utilization
         == Kept(c, Predict(m, c, s.utilization, candidate, i.uncertainty, InputDerating(c, i), i.elapsed))
  {
    DeratingAntitone(FuseTemperature(c, i), FuseTemperature(c, i), c.minDerating);
  }

  lemma FinalBracket(limit: real)
    ensures Width(limit, PROBES) == limit / 18446744073709551616.0
  {
    CapResolution(limit);
  }

  lemma HeldFits(m: Functions, c: Config, s: State, j: Input, d: real)
    requires m.Valid() && c.Valid() && c.maxMultiple > 1.0 && InputValid(j) && d == InputDerating(c, j) > 0.0
    requires 0.0 <= j.current && Advance(m, c, s, j).utilization <= 1.0
    ensures Predict(m, c, s.utilization, j.current, j.uncertainty, d, j.elapsed) <= 1.0
  {
    PredictionIsTheStep(m, c, s, j, j.current);
  }

  lemma FittingIsClose(m: Functions, c: Config, s: State, limit: real, u: real, d: real, h: real, x: real, cap: real)
    requires m.Valid() && c.Valid() && FitMeetsTable(m, c) && u >= 0.0 && d > 0.0 && h > 0.0
    requires cap == Cap(m, c, s, limit, u, d, h)
    requires 0.0 <= x <= limit && !s.exhausted && Predict(m, c, s.utilization, x, u, d, h) <= 1.0
    ensures x <= cap + limit / 18446744073709551616.0
  {
    CapIsClose(m, c, s, limit, u, d, h, x);
    FinalBracket(limit);
  }

  function LimitOf(c: Config, h: nat, charge: bool): real
    requires c.Valid() && h < HORIZONS
  {
    if charge then c.chargeCaps[h] else c.dischargeCaps[h]
  }

  lemma ReportedCap(m: Functions, c: Config, s: State, i: Input, h: nat, charge: bool) returns (cap: real)
    requires m.Valid() && c.Valid() && h < HORIZONS
    ensures InputDerating(c, i) > 0.0 && cap == Cap(m, c, s, LimitOf(c, h, charge), i.uncertainty, InputDerating(c, i), c.horizons[h])
    ensures var r := Report(m, c, s, i);
      |r.dischargeCaps| == |r.chargeCaps| == HORIZONS && cap == (if charge then r.chargeCaps[h] else r.dischargeCaps[h])
  {
    ReportedDerating(m, c, s, i);
    var limits := if charge then c.chargeCaps else c.dischargeCaps;
    CapsAt(m, c, s, limits, i.uncertainty, InputDerating(c, i), HORIZONS, h);
    cap := Cap(m, c, s, limits[h], i.uncertainty, InputDerating(c, i), c.horizons[h]);
  }

  /** Given that the fit meets the table at 154 A, no current up to the limit that can be held for a horizon without
      passing 1 exceeds the reported cap by more than 2^-64 of the limit. */
  lemma ReportedCapsAreClose(m: Functions, c: Config, s: State, i: Input, h: nat, charge: bool, j: Input, r: Result)
    requires m.Valid() && c.Valid() && FitMeetsTable(m, c) && c.maxMultiple > 1.0 && h < HORIZONS && r == Report(m, c, s, i)
    requires InputValid(j) && j.uncertainty == i.uncertainty && InputDerating(c, j) == InputDerating(c, i) && j.elapsed == c.horizons[h]
    requires 0.0 <= j.current <= LimitOf(c, h, charge) && !s.exhausted && Advance(m, c, s, j).utilization <= 1.0
    ensures |r.dischargeCaps| == |r.chargeCaps| == HORIZONS
    ensures j.current <= (if charge then r.chargeCaps[h] else r.dischargeCaps[h]) + LimitOf(c, h, charge) / 18446744073709551616.0
  {
    var cap := ReportedCap(m, c, s, i, h, charge);
    HeldFits(m, c, s, j, InputDerating(c, j));
    FittingIsClose(m, c, s, LimitOf(c, h, charge), j.uncertainty, InputDerating(c, j), j.elapsed, j.current, cap);
  }

  /** An exhausted budget leaves no current in either direction. */
  lemma ExhaustedLeavesNothing(m: Functions, c: Config, s: State, i: Input, h: nat, r: Result)
    requires m.Valid() && c.Valid() && s.exhausted && h < HORIZONS && r == Report(m, c, s, i)
    ensures |r.dischargeCaps| == |r.chargeCaps| == HORIZONS && r.dischargeCaps[h] == 0.0 && r.chargeCaps[h] == 0.0
  {
    var d := ReportedCap(m, c, s, i, h, false);
    var e := ReportedCap(m, c, s, i, h, true);
  }

  // ----- the currents a search tries -----

  /** The k-th current tried is the middle of the bracket left by the k before it. */
  function Tried(passes: real -> bool, lo: real, hi: real, k: nat): real {
    Lower(passes, lo, hi, k) + Width(hi - lo, k) / 2.0
  }

  ghost predicate SomeTried(passes: real -> bool, flag: real -> bool, lo: real, hi: real, n: nat) {
    exists k: nat | k < n :: flag(Tried(passes, lo, hi, k))
  }

  lemma TriedNext(passes: real -> bool, lo: real, hi: real, k: nat)
    ensures var mid := (lo + hi) / 2.0;
      Tried(passes, lo, hi, k + 1) == if passes(mid) then Tried(passes, mid, hi, k) else Tried(passes, lo, mid, k)
  {
    var mid := (lo + hi) / 2.0;
    assert hi - mid == (hi - lo) / 2.0 == mid - lo;
  }

  lemma TriedFirst(passes: real -> bool, lo: real, hi: real)
    ensures Tried(passes, lo, hi, 0) == (lo + hi) / 2.0
  {
  }

  /** The search tests its flag at exactly those currents. */
  lemma {:induction false} ProbesAreTried(passes: real -> bool, flag: real -> bool, lo: real, hi: real, n: nat)
    ensures AnyProbe(passes, flag, lo, hi, n) <==> SomeTried(passes, flag, lo, hi, n)
    decreases n
  {
    if n > 0 {
      var mid := (lo + hi) / 2.0;
      var a, b := if passes(mid) then mid else lo, if passes(mid) then hi else mid;
      ProbesAreTried(passes, flag, a, b, n - 1);
      TriedFirst(passes, lo, hi);
      if SomeTried(passes, flag, a, b, n - 1) {
        var k: nat :| k < n - 1 && flag(Tried(passes, a, b, k));
        TriedNext(passes, lo, hi, k);
        assert flag(Tried(passes, lo, hi, k + 1));
      }
      if SomeTried(passes, flag, lo, hi, n) {
        var k: nat :| k < n && flag(Tried(passes, lo, hi, k));
        if k > 0 {
          TriedNext(passes, lo, hi, k - 1);
          assert flag(Tried(passes, a, b, k - 1));
        }
      }
      if flag(mid) { assert flag(Tried(passes, lo, hi, 0)); }
    }
  }

  /** The equivalent of a tried current lies off the digitised curve. */
  predicate TriedOffCurve(c: Config, x: real, uncertainty: real, derating: real)
    requires derating > 0.0
  {
    var e := ((if x > 0.0 then x else 0.0) + uncertainty) / derating;
    c.rated < e < 154.0 || e > 850.0
  }

  ghost predicate SomeTriedOffCurve(c: Config, passes: real -> bool, limit: real, u: real, d: real)
    requires d > 0.0
  {
    exists k: nat | k < 64 :: TriedOffCurve(c, Tried(passes, 0.0, limit, k), u, d)
  }

  lemma OffCurveIs(m: Functions, c: Config, x: real, u: real, d: real)
    requires m.Valid() && c.Valid() && d > 0.0
    ensures OffCurve(c, u, d)(x) <==> TriedOffCurve(c, x, u, d)
  {
    WhereTheCurveAnswers(m, c, Equivalent(x, u, d));
  }

  lemma OffCurveProbes(m: Functions, c: Config, passes: real -> bool, limit: real, u: real, d: real)
    requires m.Valid() && c.Valid() && d > 0.0
    ensures AnyProbe(passes, OffCurve(c, u, d), 0.0, limit, PROBES) <==> SomeTriedOffCurve(c, passes, limit, u, d)
  {
    var off := OffCurve(c, u, d);
    ProbesAreTried(passes, off, 0.0, limit, PROBES);
    forall k: nat ensures off(Tried(passes, 0.0, limit, k)) <==> TriedOffCurve(c, Tried(passes, 0.0, limit, k), u, d) {
      OffCurveIs(m, c, Tried(passes, 0.0, limit, k), u, d);
    }
  }

  /** When a cap counts as extrapolated: its search ran, and either the limit or, where the limit fails, one of the 64
      currents tried between zero and the limit lies off the curve. */
  lemma CapExtrapolatedIff(m: Functions, c: Config, s: State, limit: real, u: real, d: real, h: real)
    requires m.Valid() && c.Valid() && d > 0.0
    ensures CapExtrapolated(m, c, s, limit, u, d, h) <==>
      (!s.exhausted && limit > 0.0 &&
       (TriedOffCurve(c, limit, u, d) ||
        (Predict(m, c, s.utilization, limit, u, d, h) > 1.0 && SomeTriedOffCurve(c, Fits(m, c, s.utilization, u, d, h), limit, u, d))))
  {
    OffCurveIs(m, c, limit, u, d);
    OffCurveProbes(m, c, Fits(m, c, s.utilization, u, d, h), limit, u, d);
  }
}
