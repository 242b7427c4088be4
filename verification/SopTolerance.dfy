/** The tolerance that downward closure rests on: the default configuration has it by a wide margin over every published
    horizon, and without it closure can fail. */
module SopTolerance {
  import opened Reals
  import opened Elementary
  import opened SopSchedule
  import opened SopModel
  import opened SopEvaluator
  import opened SopMonotone
  import opened SopEnvelope
  import Thermal = SopThermal

  // ----- the default configuration -----

  const DEFAULT: Config := Config(2.80, 4.15, 0.05, 0.98, 55.0, 55.0, 42.0, 42.0, 3.0, 6.0, 0.004, 12000.0,
                                  55.0, 15.0, 1.5, 8.0, 3.0, 1.5, 1.5, 0.5, DEFAULT_STEPS)

  const DEFAULT_HORIZONS: seq<real> := [0.1, 1.0, 10.0, 30.0]
  const DEFAULT_DISCHARGE_MAX: seq<real> := [118.0, 80.0, 70.0, 70.0]
  const DEFAULT_CHARGE_MAX: seq<real> := [11.5, 10.0, 10.0, 10.0]

  /** A segment as the calibration tables make it: an open-circuit voltage that grows with the charge and moves by at most
      13 mV per degree, either way, and an ohmic resistance no smaller than the polarisation resistances together. */
  predicate Calibrated(s: Segment) {
    && Passive(s) && s.ocvPerSoc >= 0.0 && -0.013 <= s.ocvPerDegree <= 0.013 && s.r1 + DEFAULT.r2 <= s.r0
  }

  lemma DefaultIsDamped()
    ensures DEFAULT.Valid() && Thermal.Damped(RatesOf(DEFAULT), DEFAULT.steps.Greatest())
  {
    var r := RatesOf(DEFAULT);
    assert r.a == 1.0 / 82.5 && r.b == 1.0 / 22.5 && r.c == 1.0 / 120.0;
    assert DEFAULT.steps.Greatest() == 1.0;
  }

  /** Loads that sum to at most 27 A per cell over at most 30 s, or to at most 43 A over at most 1 s. */
  predicate Modest(loads: real, time: real) {
    0.0 <= loads && 0.0 <= time && ((loads <= 27.0 && time <= 30.0) || (loads <= 43.0 && time <= 1.0))
  }

  lemma CalibratedTolerates(s: Segment, discharge: bool, loads: real, time: real)
    requires Calibrated(s) && Modest(loads, time)
    ensures Tolerates(DEFAULT, s, discharge, loads, time)
  {
    ProductWithin(loads, time);
    PerAmpereWithin(loads, Resistance(DEFAULT, s), time, s.r0);
    AdverseWithin(Adverse(s, discharge), WarmthPerAmpere(DEFAULT, s, loads, time), s.r0);
  }

  lemma AdverseWithin(adverse: real, per: real, r0: real)
    requires 0.0 <= adverse <= 0.013 && 0.0 <= per <= 30.0 * r0
    ensures Times(adverse, per) <= r0
  {
    ScaleMonotone(adverse, 0.013, per);
  }

  lemma PerAmpereWithin(loads: real, r: real, time: real, r0: real)
    requires 0.0 <= loads * time <= 810.0 && 0.0 <= r <= 2.0 * r0
    ensures 0.0 <= loads * r * time / 55.0 <= 30.0 * r0
  {
    MiddleLast(loads, r, time);
    ScaleMonotone(0.0, loads * time, r);
    ScaleMonotone(loads * time, 810.0, r);
    QuotientSign(loads * r * time, 55.0);
    QuotientMonotone(loads * r * time, 1620.0 * r0, 55.0);
  }

  lemma MiddleLast(a: real, b: real, c: real)
    ensures a * b * c == a * c * b
  {
    assert a * b == b * a && b * a * c == b * (a * c);
  }

  lemma ProductWithin(loads: real, time: real)
    requires Modest(loads, time)
    ensures 0.0 <= loads * time <= 810.0
  {
    if time <= 1.0 && loads <= 43.0 { ScaleMonotone(time, 1.0, loads); }
    else { ScaleMonotone(time, 30.0, loads); ScaleMonotone(loads, 27.0, 30.0); }
  }

  /** Every default search is sound for calibrated segments of either temperature coefficient, at current uncertainties
      up to 10 A. */
  lemma DefaultJobIsSound(m: Functions, data: Data, discharge: bool)
    requires m.Valid() && data.uncertainty <= 10.0 && forall i | 0 <= i < |data.segments| :: Calibrated(data.segments[i])
    ensures var j := Job(m, data, DEFAULT, DEFAULT_HORIZONS, DEFAULT_DISCHARGE_MAX, DEFAULT_CHARGE_MAX);
      j.Valid() && Sound(j, discharge)
  {
    DefaultIsDamped();
    var j := Job(m, data, DEFAULT, DEFAULT_HORIZONS, DEFAULT_DISCHARGE_MAX, DEFAULT_CHARGE_MAX);
    forall i | 0 <= i < |j.horizons| ensures Tolerant(m, data, DEFAULT, discharge, CapAt(j, i, discharge), j.horizons[i]) {
      forall k | 0 <= k < |data.segments|
        ensures Tolerates(DEFAULT, data.segments[k], discharge,
                          2.0 * Load(CaseOf(m, data, DEFAULT, Signed(CapAt(j, i, discharge), discharge), discharge)), j.horizons[i])
      {
        var load := Load(CaseOf(m, data, DEFAULT, Signed(CapAt(j, i, discharge), discharge), discharge));
        assert 0.0 <= load <= (CapAt(j, i, discharge) + 10.0) / 6.0;
        CalibratedTolerates(data.segments[k], discharge, 2.0 * load, j.horizons[i]);
      }
    }
  }

  // ----- closure without tolerance -----

  /** A cell that loves warmth: its open-circuit voltage gains more from the heat of a great current than the
      resistances cost. */
  predicate WarmCell(s: Segment) {
    && s.Valid() && s.soc == 0.5 && s.socSigma == 0.0 && s.margin == 0.0 && s.bias == [0.0]
    && s.vp1 == s.vp2 == s.core == s.surface == s.core0 == s.ocv0 == s.ocvPerSoc == s.r1 == 0.0 && s.r0 == 1.0
    && s.ocvPerDegree == 11525.0 / 2200.0
  }

  /** Unit resistances and capacities, and limits far away from everything but the voltage. */
  predicate Wide(c: Config) {
    && c.Valid() && RatesOf(c) == UNIT && c.coreCapacity == c.r2 == c.parallelCells == 1.0 && c.steps == DEFAULT_STEPS
    && c.cellUv == c.currentFloor == c.temperatureUncertainty == c.modelTemperatureMargin == 0.0
    && c.socMin == -1.0 && c.dischargeCoreMax == c.dischargeSurfaceMax == 55.0
  }

  const UNIT: Thermal.Rates := Thermal.Rates(1.0, 1.0, 1.0, 1.0)

  /** From cold nodes in cold surroundings only the warmth counts. */
  lemma ColdTops(r: Thermal.Rates, w: real, dt: real, h: real)
    ensures Thermal.CoreTop(r, Thermal.COLD, w, 0.0, dt, h) == (1.0 + h * (r.b + r.c)) * w
    ensures Thermal.SurfaceTop(r, Thermal.COLD, w, 0.0, dt, h) == h * r.b * w
  {
    Thermal.CoreTopIsLinear(r, Thermal.COLD, w, 0.0, dt, h);
    Thermal.SurfaceTopIsLinear(r, Thermal.COLD, w, 0.0, dt, h);
  }

  lemma UnitDeterminant(h: real)
    ensures Thermal.Determinant(UNIT, h) == (1.0 + h) * (1.0 + h * 2.0) - h * h
  {
  }

  lemma WideStep(heat: real)
    ensures Thermal.Step(UNIT, Thermal.COLD, heat, 0.0, 0.1)
         == Thermal.Nodes(1100.0 / 11525.0 * heat, 50.0 / 11525.0 * heat)
  {
    var w := Thermal.Warmth(UNIT, heat, 0.1);
    assert w == 0.1 * heat;
    ColdTops(UNIT, w, 0.1, 0.05);
    UnitDeterminant(0.05);
  }

  /** An evaluation at a cell current of up to 2 A. */
  ghost predicate Warm(w: Case) {
    w.m.Valid() && Wide(w.c) && w.ambient == 0.0 && w.discharge && 0.0 <= w.x <= 2.0
  }

  lemma ColdNodes(w: Case, s: Segment)
    requires Warm(w) && WarmCell(s)
    ensures NodesAfter(w, s, 0.1) == Thermal.Step(UNIT, Thermal.COLD, Heat(w.x, 2.0), 0.0, 0.1)
  {
    assert s.r0 + s.r1 + w.c.r2 == 2.0;
  }

  lemma WarmNodes(w: Case, s: Segment, heat: real)
    requires Warm(w) && WarmCell(s) && heat == Heat(w.x, 2.0)
    ensures Advance(w, s, 0.1).core == 1100.0 / 11525.0 * heat
    ensures Advance(w, s, 0.1).surface == 50.0 / 11525.0 * heat
  {
    ColdNodes(w, s);
    WideStep(heat);
  }

  lemma WarmSoc(w: Case, s: Segment)
    requires Warm(w) && WarmCell(s) && s.capacity == 1.0
    ensures Advance(w, s, 0.1).soc == 0.5 - w.x * 0.1
  {
    assert w.x * 0.1 / 1.0 == w.x * 0.1;
  }

  lemma NoPolarisation(a: real, x: real)
    ensures Relaxed(a, 0.0, 0.0, x) == 0.0
  {
  }

  lemma UnitPolarisation(a: real, x: real)
    requires 0.0 <= a <= 1.0 && x >= 0.0
    ensures 0.0 <= Relaxed(a, 0.0, 1.0, x) <= x
  {
    ScaleMonotone(0.0, 1.0 - a, x);
    ScaleMonotone(1.0 - a, 1.0, x);
  }

  lemma WarmPolarisation(w: Case, s: Segment)
    requires Warm(w) && WarmCell(s)
    ensures 0.0 <= Advance(w, s, 0.1).vp1 + Advance(w, s, 0.1).vp2 <= w.x
  {
    DecayIsFraction(w.m, 0.1, SecondTau(w.c));
    NoPolarisation(Decay(w.m, 0.1, s.tau1), w.x);
    UnitPolarisation(Decay(w.m, 0.1, SecondTau(w.c)), w.x);
  }

  /** What the warmth of the core gives back in voltage. */
  lemma WarmGain(heat: real, x: real)
    requires heat == Heat(x, 2.0)
    ensures Times(11525.0 / 2200.0, 1100.0 / 11525.0 * heat) == x * x
  {
    assert heat == 2.0 * (x * x);
  }

  lemma WarmOpenCircuit(s: Segment)
    requires s.ocv0 == s.ocvPerSoc == s.core0 == 0.0
    ensures OpenCircuit(s) == Times(s.ocvPerDegree, s.core)
  {
    assert Times(0.0, s.soc - s.soc0) == 0.0;
  }

  lemma UnitResistance(x: real)
    ensures Times(1.0, x) == x
  {
  }

  /** The cell's voltage after one step: a cost between x and 2x, and x * x back. */
  lemma WarmVoltage(w: Case, s: Segment)
    requires Warm(w) && WarmCell(s)
    ensures w.x * w.x - 2.0 * w.x <= BaseVoltage(w, Advance(w, s, 0.1)) <= w.x * w.x - w.x
  {
    var r, heat := Advance(w, s, 0.1), Heat(w.x, 2.0);
    WarmNodes(w, s, heat);
    WarmPolarisation(w, s);
    WarmOpenCircuit(r);
    UnitResistance(w.x);
    WarmBalance(BaseVoltage(w, r), heat, w.x, r.core, r.vp1, r.vp2);
  }

  lemma WarmBalance(voltage: real, heat: real, x: real, core: real, vp1: real, vp2: real)
    requires heat == Heat(x, 2.0) && core == 1100.0 / 11525.0 * heat && 0.0 <= vp1 + vp2 <= x
    requires voltage == Times(11525.0 / 2200.0, core) - vp1 - vp2 - x
    ensures x * x - 2.0 * x <= voltage <= x * x - x
  {
    WarmGain(heat, x);
  }

  lemma HeatUpTo(x: real)
    requires 0.0 <= x <= 2.0
    ensures 0.0 <= Heat(x, 2.0) <= 8.0
  {
    ScaleMonotone(x, 2.0, x);
  }

  /** At these currents only the voltage can break. */
  lemma WarmWithin(w: Case, s: Segment)
    requires Warm(w) && WarmCell(s) && s.capacity == 1.0
    ensures Within(w, Advance(w, s, 0.1)) <==> BaseVoltage(w, Advance(w, s, 0.1)) >= 0.0
  {
    WarmNodes(w, s, Heat(w.x, 2.0));
    WarmSoc(w, s);
    HeatUpTo(w.x);
    var r := Advance(w, s, 0.1);
    assert SocSpread(w.c, r) == 0.0;
    if BaseVoltage(w, r) < 0.0 { assert CellBreaks(w, r, BaseVoltage(w, r) + r.bias[0]); }
  }

  lemma OneStep(w: Case, s: Segment)
    requires w.c.Valid() && s.Valid()
    ensures Evaluate(w, [s], [0.1], 0.0, 0).feasible <==> Within(w, Advance(w, s, 0.1))
  {
    FeasibleIffAlwaysWithin(w, [s], [0.1], 0.0, 0);
    var next := AdvanceAll(w, [s], 0.1);
    assert StateAt(w, [s], [0.1], 1) == StateAt(w, next, [0.1][1..], 0) == next;
    assert next[0] == Advance(w, s, 0.1);
  }

  lemma TenthSecond(c: Config)
    requires c.Valid() && c.steps == DEFAULT_STEPS
    ensures Steps0(c, 0.1) == [0.1]
  {
    StepMakesProgress(DEFAULT_STEPS, 0.0, 0.1);
    assert Schedule(DEFAULT_STEPS, 0.1, 0.1) == [];
    assert StepSize(DEFAULT_STEPS, 0.0, 0.1) == 0.1;
  }

  lemma NoUncertainty(c: Config, data: Data, x: real)
    requires Wide(c) && data.uncertainty == 0.0
    ensures CellCurrent(data, c, x, true) == x
  {
  }

  lemma FeasibleAtOnce(m: Functions, c: Config, data: Data, s: Segment, x: real)
    requires c.Valid() && s.Valid() && data.segments == [s] && Steps0(c, 0.1) == [0.1]
    ensures AllValid(data.segments)
    ensures EvaluateAt(m, data, c, x, true, 0.1).feasible
       <==> Within(CaseOf(m, data, c, x, true), Advance(CaseOf(m, data, c, x, true), s, 0.1))
  {
    OneStep(CaseOf(m, data, c, x, true), s);
  }

  lemma WarmOutcome(w: Case, s: Segment)
    requires Warm(w) && WarmCell(s) && s.capacity == 1.0
    ensures Within(w, Advance(w, s, 0.1)) ==> w.x * w.x >= w.x
    ensures !Within(w, Advance(w, s, 0.1)) ==> w.x * w.x < 2.0 * w.x
  {
    WarmVoltage(w, s);
    WarmWithin(w, s);
    FromVoltage(Within(w, Advance(w, s, 0.1)), BaseVoltage(w, Advance(w, s, 0.1)), w.x, w.x * w.x);
  }

  lemma FromVoltage(within: bool, voltage: real, x: real, square: real)
    requires (within <==> voltage >= 0.0) && square - 2.0 * x <= voltage <= square - x
    ensures (within ==> square >= x) && (!within ==> square < 2.0 * x)
  {
  }

  lemma WarmFeasible(m: Functions, c: Config, data: Data, s: Segment, x: real)
    requires m.Valid() && Wide(c) && WarmCell(s) && s.capacity == 1.0 && data == Data(0.0, 0.0, [s]) && 0.0 <= x <= 2.0
    ensures AllValid(data.segments)
    ensures EvaluateAt(m, data, c, x, true, 0.1).feasible ==> x * x >= x
    ensures !EvaluateAt(m, data, c, x, true, 0.1).feasible ==> x * x < 2.0 * x
  {
    TenthSecond(c);
    FeasibleAtOnce(m, c, data, s, x);
    NoUncertainty(c, data, x);
    WarmOutcome(CaseOf(m, data, c, x, true), s);
  }

  lemma UnitIsDamped(r: Thermal.Rates)
    requires r.a == r.b == r.c == 1.0
    ensures Thermal.Damped(r, 1.0)
  {
    assert Thermal.CoreStays(r, 0.5) == 1.25 && Thermal.SurfaceStays(r, 0.5) == 0.25;
  }

  lemma WideIsDamped(c: Config)
    requires Wide(c)
    ensures Thermal.Damped(RatesOf(c), c.steps.Greatest())
  {
    UnitIsDamped(RatesOf(c));
    assert DEFAULT_STEPS.Greatest() == 1.0;
  }

  /** Everything the closure rests on, except what a segment tolerates. */
  ghost predicate AllButTolerant(m: Functions, data: Data, c: Config) {
    && m.Valid() && c.Valid() && c.currentFloor >= 0.0 && Thermal.Damped(RatesOf(c), c.steps.Greatest())
    && forall i | 0 <= i < |data.segments| :: Passive(data.segments[i]) && data.segments[i].ocvPerSoc >= 0.0
  }

  lemma WideExists() returns (c: Config)
    ensures Wide(c)
  {
    c := Config(0.0, 0.0, -1.0, 0.0, 55.0, 55.0, 0.0, 0.0, 0.0, 1.0, 1.0, 1.0,
                1.0, 1.0, 1.0, 1.0, 0.0, 0.0, 0.0, 0.0, DEFAULT_STEPS);
    assert 1.0 / (1.0 * 1.0) == 1.0;
  }

  lemma WarmCellExists() returns (s: Segment)
    ensures WarmCell(s) && s.capacity == 1.0
  {
    s := Segment(0.5, 0.0, 0.0, 0.0, 0.0, 0.5, 0.0, 0.0, 0.0, 11525.0 / 2200.0, 1.0, 0.0, 1.0, 1.0, 0.0, [0.0], 0.0);
  }

  lemma WarmIsAllButTolerant(m: Functions, c: Config, data: Data, s: Segment)
    requires m.Valid() && Wide(c) && WarmCell(s) && data.segments == [s]
    ensures AllButTolerant(m, data, c)
  {
    WideIsDamped(c);
  }

  /** Without the tolerance a current can be infeasible although zero and a larger current are feasible. */
  lemma WarmthBreaksClosure(m: Functions) returns (data: Data, c: Config)
    requires m.Valid()
    ensures AllButTolerant(m, data, c) && AllValid(data.segments)
    ensures EvaluateAt(m, data, c, 0.0, true, 0.1).feasible && EvaluateAt(m, data, c, 2.0, true, 0.1).feasible
    ensures !EvaluateAt(m, data, c, 0.5, true, 0.1).feasible
  {
    c := WideExists();
    var s := WarmCellExists();
    data := Data(0.0, 0.0, [s]);
    WarmIsAllButTolerant(m, c, data, s);
    WarmFeasible(m, c, data, s, 0.0);
    WarmFeasible(m, c, data, s, 0.5);
    WarmFeasible(m, c, data, s, 2.0);
  }
}
