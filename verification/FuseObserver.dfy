/** The fuse observer: exact integration of thermal utilisation under a held current, the exhaustion
    latch, and the bisected current caps (fuse_reference_oracle.c). */
module FuseObserver {
  import opened Reals
  import opened Elementary
  import opened Bisection
  import opened FuseCurve

  datatype State = State(
    utilization: real, quiescentTime: real, updateCount: nat, invalidCount: nat,
    initialized: bool, exhausted: bool, conservative: bool)

  datatype Input = Input(
    current: real, uncertainty: real, temperature: real, elapsed: real,
    measurementValid: bool, calibrated: bool, polarityValidated: bool,
    atFuse: bool, modelValidated: bool)

  datatype Reason =
    | InputInvalid | TemperatureProxy | ModelUnvalidated | InitialStateUnknown
    | CurveDerated | BudgetExhausted | CurveExtrapolated

  datatype Result = Result(
    utilization: real, remaining: real, fuseTemperature: real, derating: real, continuous: real,
    effective: real, equivalent: real, typical: Time, usable: Time,
    dischargeCaps: seq<real>, chargeCaps: seq<real>, reasons: set<Reason>,
    valid: bool, authorityValid: bool, exhausted: bool, extrapolated: bool)

  const COUNT_MAX: nat := 0xFFFF_FFFF_FFFF_FFFF
  const PROBES: nat := 64
  const INITIAL: State := State(0.0, 0.0, 0, 0, false, false, false)

  function Saturating(n: nat): nat { if n != COUNT_MAX then n + 1 else n }

  predicate InputValid(i: Input) {
    i.uncertainty >= 0.0 && i.elapsed > 0.0 && i.measurementValid && i.calibrated && i.polarityValidated
  }

  function Effective(i: Input): real { Abs(i.current) + i.uncertainty }

  function FuseTemperature(c: Config, i: Input): real {
    if i.atFuse then i.temperature else i.temperature + c.margin
  }

  function InputDerating(c: Config, i: Input): real { Derating(FuseTemperature(c, i), c.minDerating) }

  function Max(a: real, b: real): real { if a >= b then a else b }

  /** Relaxation from x towards the equilibrium e, keeping the share d of the start. */
  function Relaxed(x: real, e: real, d: real): real { Times(x, d) + Times(e, 1.0 - d) }

  function Decay(m: Functions, c: Config, t: real): real
    requires c.Valid()
  {
    m.exp(-(t / c.tau))
  }

  function Equilibrium(m: Functions, c: Config, equivalent: real): real
    requires m.Valid() && c.Valid()
  {
    Times(SourceRate(m, c, equivalent), c.tau)
  }

  function Latch(u: real, latched: bool): bool {
    if u >= 1.0 then true else if u <= 0.5 then false else latched
  }

  function InputEquilibrium(m: Functions, c: Config, i: Input): real
    requires m.Valid() && c.Valid()
  {
    DeratingAntitone(FuseTemperature(c, i), FuseTemperature(c, i), c.minDerating);
    Equilibrium(m, c, Effective(i) / InputDerating(c, i))
  }

  function NextUtilization(m: Functions, c: Config, u: real, i: Input): real
    requires m.Valid() && c.Valid()
  {
    Clamp(Relaxed(u, InputEquilibrium(m, c, i), Decay(m, c, i.elapsed)), 0.0, c.maxMultiple)
  }

  /** The state after one step. */
  function Advance(m: Functions, c: Config, s: State, i: Input): State
    requires m.Valid()
  {
    if !c.Valid() || !InputValid(i) then s.(invalidCount := Saturating(s.invalidCount))
    else
      var quiet := if Effective(i) <= c.quiescent then s.quiescentTime + i.elapsed else 0.0;
      var u := NextUtilization(m, c, s.utilization, i);
      State(u,
            if s.initialized then s.quiescentTime else quiet,
            Saturating(s.updateCount), s.invalidCount,
            s.initialized || (Effective(i) <= c.quiescent && quiet >= c.soak),
            Latch(u, s.exhausted),
            s.conservative && !(u <= 0.5))
  }

  /** The 25 C equivalent of a candidate current with its uncertainty added. */
  function Equivalent(candidate: real, uncertainty: real, derating: real): real
    requires derating > 0.0
  {
    (Max(0.0, candidate) + uncertainty) / derating
  }

  /** Utilisation predicted at the end of a horizon under a held candidate current. */
  function Predict(m: Functions, c: Config, u: real, candidate: real, uncertainty: real, derating: real, horizon: real): real
    requires m.Valid() && c.Valid() && derating > 0.0
  {
    Relaxed(u, Equilibrium(m, c, Equivalent(candidate, uncertainty, derating)), Decay(m, c, horizon))
  }

  ghost function Fits(m: Functions, c: Config, u: real, uncertainty: real, derating: real, horizon: real): real -> bool
    requires m.Valid() && c.Valid() && derating > 0.0
  {
    x => Predict(m, c, u, x, uncertainty, derating, horizon) <= 1.0
  }

  function OffCurve(c: Config, uncertainty: real, derating: real): real -> bool
    requires derating > 0.0
  {
    x => Extrapolated(c, Equivalent(x, uncertainty, derating))
  }

  /** The published current cap for one horizon. */
  ghost function Cap(m: Functions, c: Config, s: State, limit: real, uncertainty: real, derating: real, horizon: real): real
    requires m.Valid() && c.Valid() && derating > 0.0
  {
    if s.exhausted || limit <= 0.0 then 0.0
    else if Predict(m, c, s.utilization, limit, uncertainty, derating, horizon) <= 1.0 then limit
    else Lower(Fits(m, c, s.utilization, uncertainty, derating, horizon), 0.0, limit, PROBES)
  }

  /** Whether a prediction made for that cap left the digitised curve. */
  ghost predicate CapExtrapolated(m: Functions, c: Config, s: State, limit: real, uncertainty: real, derating: real, horizon: real)
    requires m.Valid() && c.Valid() && derating > 0.0
  {
    !(s.exhausted || limit <= 0.0) &&
    (OffCurve(c, uncertainty, derating)(limit) ||
     (Predict(m, c, s.utilization, limit, uncertainty, derating, horizon) > 1.0 &&
      AnyProbe(Fits(m, c, s.utilization, uncertainty, derating, horizon), OffCurve(c, uncertainty, derating), 0.0, limit, PROBES)))
  }

  class Observer {
    var utilization: real
    var quiescentTime: real
    var updateCount: nat
    var invalidCount: nat
    var initialized: bool
    var exhausted: bool
    var conservative: bool

    function Snapshot(): State
      reads this
    {
      State(utilization, quiescentTime, updateCount, invalidCount, initialized, exhausted, conservative)
    }

    constructor ()
      ensures Snapshot() == INITIAL
    {
      utilization, quiescentTime := 0.0, 0.0;
      updateCount, invalidCount := 0, 0;
      initialized, exhausted, conservative := false, false, false;
    }

    method Seed(c: Config, u: real) returns (ok: bool)
      modifies this
      ensures ok == (c.Valid() && 0.0 <= u <= c.maxMultiple)
      ensures Snapshot() == if ok
                            then old(Snapshot()).(utilization := u, quiescentTime := c.soak, initialized := true, exhausted := u >= 1.0)
                            else old(Snapshot())
    {
      if !c.Valid() || u < 0.0 || u > c.maxMultiple { return false; }
      utilization := u;
      quiescentTime := c.soak;
      initialized := true;
      exhausted := u >= 1.0;
      return true;
    }

    method SolveCap(m: Functions, c: Config, limit: real, uncertainty: real, derating: real, horizon: real)
      returns (cap: real, extrapolated: bool)
      requires m.Valid() && c.Valid() && derating > 0.0
      ensures cap == Cap(m, c, Snapshot(), limit, uncertainty, derating, horizon)
      ensures extrapolated == CapExtrapolated(m, c, Snapshot(), limit, uncertainty, derating, horizon)
    {
      if exhausted || limit <= 0.0 { return 0.0, false; }
      ghost var fits := Fits(m, c, utilization, uncertainty, derating, horizon);
      var off := OffCurve(c, uncertainty, derating);
      extrapolated := off(limit);
      if Predict(m, c, utilization, limit, uncertainty, derating, horizon) <= 1.0 { return limit, extrapolated; }
      var lo, hi := 0.0, limit;
      for k := 0 to PROBES
        invariant Lower(fits, lo, hi, PROBES - k) == Lower(fits, 0.0, limit, PROBES)
        invariant (extrapolated || AnyProbe(fits, off, lo, hi, PROBES - k))
               == (off(limit) || AnyProbe(fits, off, 0.0, limit, PROBES))
      {
        var mid := (lo + hi) / 2.0;
        if off(mid) { extrapolated := true; }
        if Predict(m, c, utilization, mid, uncertainty, derating, horizon) <= 1.0 { lo := mid; } else { hi := mid; }
      }
      cap := lo;
    }

    /** The caps of all horizons, with the two conditions the reason flags record. */
    method HorizonCaps(m: Functions, c: Config, uncertainty: real, derating: real)
      returns (discharge: seq<real>, charge: seq<real>, extrapolated: bool, derated: bool)
      requires m.Valid() && c.Valid() && derating > 0.0
      ensures discharge == Caps(m, c, Snapshot(), c.dischargeCaps, uncertainty, derating, HORIZONS)
      ensures charge == Caps(m, c, Snapshot(), c.chargeCaps, uncertainty, derating, HORIZONS)
      ensures extrapolated == (AnyOff(m, c, Snapshot(), c.dischargeCaps, uncertainty, derating, HORIZONS) ||
                               AnyOff(m, c, Snapshot(), c.chargeCaps, uncertainty, derating, HORIZONS))
      ensures derated == (AnyLowered(discharge, c.dischargeCaps) || AnyLowered(charge, c.chargeCaps))
    {
      discharge, charge, extrapolated, derated := [], [], false, false;
      for h := 0 to HORIZONS
        invariant discharge == Caps(m, c, Snapshot(), c.dischargeCaps, uncertainty, derating, h)
        invariant charge == Caps(m, c, Snapshot(), c.chargeCaps, uncertainty, derating, h)
        invariant extrapolated == (AnyOff(m, c, Snapshot(), c.dischargeCaps, uncertainty, derating, h) ||
                                   AnyOff(m, c, Snapshot(), c.chargeCaps, uncertainty, derating, h))
        invariant derated == (AnyLowered(discharge, c.dischargeCaps) || AnyLowered(charge, c.chargeCaps))
      {
        var cap, off := SolveCap(m, c, c.dischargeCaps[h], uncertainty, derating, c.horizons[h]);
        LoweredStep(discharge, cap, c.dischargeCaps);
        discharge := discharge + [cap];
        extrapolated := extrapolated || off;
        derated := derated || cap + 0.000000001 < c.dischargeCaps[h];
        cap, off := SolveCap(m, c, c.chargeCaps[h], uncertainty, derating, c.horizons[h]);
        LoweredStep(charge, cap, c.chargeCaps);
        charge := charge + [cap];
        extrapolated := extrapolated || off;
        derated := derated || cap + 0.000000001 < c.chargeCaps[h];
      }
    }

    /** The state half of a step: soak bookkeeping, relaxation, clamp and latch. */
    method Integrate(m: Functions, c: Config, i: Input, equivalent: real)
      requires m.Valid() && c.Valid() && InputValid(i) && 0.0 < InputDerating(c, i)
      requires equivalent == Effective(i) / InputDerating(c, i)
      modifies this
      ensures Snapshot() == Advance(m, c, old(Snapshot()), i)
    {
      if updateCount != COUNT_MAX { updateCount := updateCount + 1; }
      var effective := Abs(i.current) + i.uncertainty;
      if !initialized {
        if effective <= c.quiescent {
          quiescentTime := quiescentTime + i.elapsed;
          if quiescentTime >= c.soak { initialized := true; }
        } else {
          quiescentTime := 0.0;
        }
      }
      var decay := Decay(m, c, i.elapsed);
      utilization := Clamp(Relaxed(utilization, Equilibrium(m, c, equivalent), decay), 0.0, c.maxMultiple);
      if utilization >= 1.0 {
        exhausted := true;
      } else if utilization <= 0.5 {
        exhausted := false;
        conservative := false;
      }
    }

    method Step(m: Functions, c: Config, i: Input) returns (ok: bool, r: Result)
      requires m.Valid()
      modifies this
      ensures ok == (c.Valid() && InputValid(i))
      ensures Snapshot() == Advance(m, c, old(Snapshot()), i)
      ensures !ok ==> r == INVALID_RESULT
      ensures !ok ==> r.utilization == 1.0 && r.remaining == 0.0 && r.reasons == {InputInvalid} && !r.valid && !r.authorityValid
      ensures !ok ==> r.dischargeCaps == r.chargeCaps == [0.0, 0.0, 0.0, 0.0]
      ensures ok ==> r == Report(m, c, Snapshot(), i)
    {
      if !c.Valid() || !InputValid(i) {
        if invalidCount != COUNT_MAX { invalidCount := invalidCount + 1; }
        return false, INVALID_RESULT;
      }
      var effective := Abs(i.current) + i.uncertainty;
      var temperature := if i.atFuse then i.temperature else i.temperature + c.margin;
      DeratingAntitone(temperature, temperature, c.minDerating);
      var derating := Derating(temperature, c.minDerating);
      var equivalent := effective / derating;
      Integrate(m, c, i, equivalent);
      var discharge, charge, off, derated := HorizonCaps(m, c, i.uncertainty, derating);
      r := Compose(m, c, Snapshot(), i, discharge, charge, off, derated);
      ok := true;
    }
  }

  const INVALID_RESULT: Result := Result(
    1.0, 0.0, 0.0, 0.0, 0.0, 0.0, 0.0, Seconds(0.0), Seconds(0.0),
    [0.0, 0.0, 0.0, 0.0], [0.0, 0.0, 0.0, 0.0], {InputInvalid}, false, false, false, false)

  function Reasons(proxy: bool, offCurve: bool, lowered: bool, unvalidated: bool, unknownStart: bool, exhausted: bool): (r: set<Reason>)
    ensures InputInvalid !in r
    ensures TemperatureProxy in r <==> proxy
    ensures CurveExtrapolated in r <==> offCurve
    ensures CurveDerated in r <==> lowered
    ensures ModelUnvalidated in r <==> unvalidated
    ensures InitialStateUnknown in r <==> unknownStart
    ensures BudgetExhausted in r <==> exhausted
  {
    (if proxy then {TemperatureProxy} else {}) + (if offCurve then {CurveExtrapolated} else {})
    + (if lowered then {CurveDerated} else {}) + (if unvalidated then {ModelUnvalidated} else {})
    + (if unknownStart then {InitialStateUnknown} else {}) + (if exhausted then {BudgetExhausted} else {})
  }

  /** The caps of the first n horizons against their static limits. */
  ghost function Caps(m: Functions, c: Config, s: State, limits: seq<real>, uncertainty: real, derating: real, n: nat): (caps: seq<real>)
    requires m.Valid() && c.Valid() && derating > 0.0 && n <= HORIZONS && |limits| == HORIZONS
    ensures |caps| == n
  {
    if n == 0 then []
    else Caps(m, c, s, limits, uncertainty, derating, n - 1) + [Cap(m, c, s, limits[n - 1], uncertainty, derating, c.horizons[n - 1])]
  }

  ghost predicate AnyOff(m: Functions, c: Config, s: State, limits: seq<real>, uncertainty: real, derating: real, n: nat)
    requires m.Valid() && c.Valid() && derating > 0.0 && n <= HORIZONS && |limits| == HORIZONS
  {
    n > 0 && (AnyOff(m, c, s, limits, uncertainty, derating, n - 1) ||
              CapExtrapolated(m, c, s, limits[n - 1], uncertainty, derating, c.horizons[n - 1]))
  }

  /** A published cap lies visibly below its static limit. */
  ghost predicate AnyLowered(caps: seq<real>, limits: seq<real>)
    requires |caps| <= |limits|
  {
    exists h | 0 <= h < |caps| :: caps[h] + 0.000000001 < limits[h]
  }

  lemma LoweredStep(caps: seq<real>, cap: real, limits: seq<real>)
    requires |caps| < |limits|
    ensures AnyLowered(caps + [cap], limits) == (AnyLowered(caps, limits) || cap + 0.000000001 < limits[|caps|])
  {
    var more := caps + [cap];
    assert more[|caps|] == cap;
    if AnyLowered(caps, limits) {
      var h :| 0 <= h < |caps| && caps[h] + 0.000000001 < limits[h];
      assert more[h] == caps[h];
    }
    if AnyLowered(more, limits) {
      var h :| 0 <= h < |more| && more[h] + 0.000000001 < limits[h];
      if h < |caps| { assert more[h] == caps[h]; }
    }
  }

  function Compose(m: Functions, c: Config, s: State, i: Input, discharge: seq<real>, charge: seq<real>, off: bool, lowered: bool): Result
    requires m.Valid() && c.Valid()
  {
    DeratingAntitone(FuseTemperature(c, i), FuseTemperature(c, i), c.minDerating);
    var derating := InputDerating(c, i);
    var equivalent := Effective(i) / derating;
    var extrapolated := off || Extrapolated(c, equivalent);
    Result(s.utilization, Max(0.0, 1.0 - s.utilization), FuseTemperature(c, i), derating, Times(c.rated, derating),
           Effective(i), equivalent, MeltTime(m, c, equivalent), Usable(m, c, equivalent), discharge, charge,
           Reasons(!i.atFuse, extrapolated, lowered, !i.modelValidated, !s.initialized || s.conservative, s.exhausted),
           true, i.modelValidated && s.initialized, s.exhausted, extrapolated)
  }

  /** What a valid step reports about the state s it leaves. */
  ghost function Report(m: Functions, c: Config, s: State, i: Input): Result
    requires m.Valid() && c.Valid()
  {
    DeratingAntitone(FuseTemperature(c, i), FuseTemperature(c, i), c.minDerating);
    var d := InputDerating(c, i);
    var discharge := Caps(m, c, s, c.dischargeCaps, i.uncertainty, d, HORIZONS);
    var charge := Caps(m, c, s, c.chargeCaps, i.uncertainty, d, HORIZONS);
    Compose(m, c, s, i, discharge, charge,
            AnyOff(m, c, s, c.dischargeCaps, i.uncertainty, d, HORIZONS) || AnyOff(m, c, s, c.chargeCaps, i.uncertainty, d, HORIZONS),
            AnyLowered(discharge, c.dischargeCaps) || AnyLowered(charge, c.chargeCaps))
  }

  /** A prediction made for the cap of some horizon left the digitised curve. */
  ghost predicate SomeOff(m: Functions, c: Config, s: State, limits: seq<real>, uncertainty: real, derating: real, n: nat)
    requires m.Valid() && c.Valid() && derating > 0.0 && n <= HORIZONS && |limits| == HORIZONS
  {
    exists h: nat | h < n :: CapExtrapolated(m, c, s, limits[h], uncertainty, derating, c.horizons[h])
  }

  lemma {:induction false} AnyOffIff(m: Functions, c: Config, s: State, limits: seq<real>, uncertainty: real, derating: real, n: nat)
    requires m.Valid() && c.Valid() && derating > 0.0 && n <= HORIZONS && |limits| == HORIZONS
    ensures AnyOff(m, c, s, limits, uncertainty, derating, n) <==> SomeOff(m, c, s, limits, uncertainty, derating, n)
    decreases n
  {
    if n > 0 {
      AnyOffIff(m, c, s, limits, uncertainty, derating, n - 1);
      OneMoreOff(m, c, s, limits, uncertainty, derating, n - 1);
    }
  }

  lemma OneMoreOff(m: Functions, c: Config, s: State, limits: seq<real>, uncertainty: real, derating: real, n: nat)
    requires m.Valid() && c.Valid() && derating > 0.0 && n < HORIZONS && |limits| == HORIZONS
    ensures SomeOff(m, c, s, limits, uncertainty, derating, n + 1) <==>
      SomeOff(m, c, s, limits, uncertainty, derating, n) || CapExtrapolated(m, c, s, limits[n], uncertainty, derating, c.horizons[n])
  {
    if h: nat :| h < n + 1 && CapExtrapolated(m, c, s, limits[h], uncertainty, derating, c.horizons[h]) {
      assert h < n || h == n;
    }
  }

  /** Which reasons a valid step reports, each under the condition the source tests. */
  lemma ReportedReasons(m: Functions, c: Config, s: State, i: Input)
    requires m.Valid() && c.Valid()
    ensures InputDerating(c, i) > 0.0
    ensures var r, d := Report(m, c, s, i), InputDerating(c, i);
      && |r.dischargeCaps| == |r.chargeCaps| == HORIZONS
      && InputInvalid !in r.reasons
      && (TemperatureProxy in r.reasons <==> !i.atFuse)
      && (ModelUnvalidated in r.reasons <==> !i.modelValidated)
      && (InitialStateUnknown in r.reasons <==> !s.initialized || s.conservative)
      && (BudgetExhausted in r.reasons <==> s.exhausted)
      && (CurveDerated in r.reasons <==> exists h | 0 <= h < HORIZONS ::
            r.dischargeCaps[h] + 0.000000001 < c.dischargeCaps[h] || r.chargeCaps[h] + 0.000000001 < c.chargeCaps[h])
      && (CurveExtrapolated in r.reasons <==>
            (Extrapolated(c, Effective(i) / d) || SomeOff(m, c, s, c.dischargeCaps, i.uncertainty, d, HORIZONS)
             || SomeOff(m, c, s, c.chargeCaps, i.uncertainty, d, HORIZONS)))
  {
    DeratingAntitone(FuseTemperature(c, i), FuseTemperature(c, i), c.minDerating);
    var d := InputDerating(c, i);
    AnyOffIff(m, c, s, c.dischargeCaps, i.uncertainty, d, HORIZONS);
    AnyOffIff(m, c, s, c.chargeCaps, i.uncertainty, d, HORIZONS);
  }
}
