/** What an evaluation checks, written out in the start values of a segment, the elapsed time and the temperatures; and the
    heat balance that the temperatures obey. */
module SopClosedForm {
  import opened Reals
  import opened Elementary
  import opened SopModel
  import opened SopEvaluator
  import opened SopExact
  import Thermal = SopThermal

  // ----- the cell voltage -----

  /** The state of charge after drawing x for a time t. */
  function Charge(s: Segment, x: real, t: real): real
    requires s.Valid()
  {
    s.soc - x * t / s.capacity
  }

  /** A polarisation voltage after a time t at current x: what is left of v, and the rest on its way to r * x. */
  function Polarisation(m: Functions, tau: real, v: real, r: real, x: real, t: real): real
    requires tau > 0.0
  {
    var a := m.exp(-t / tau);
    a * v + r * (1.0 - a) * x
  }

  /** The voltage of cell j after drawing x for a time t, with the core at this temperature. */
  function CellVoltage(m: Functions, c: Config, s: Segment, x: real, t: real, core: real, j: nat): real
    requires c.Valid() && s.Valid() && j < |s.bias|
  {
    ProductPositive(c.r2, c.c2);
    s.ocv0 + Times(s.ocvPerSoc, Charge(s, x, t) - s.soc0) + Times(s.ocvPerDegree, core - s.core0)
    - Polarisation(m, s.tau1, s.vp1, s.r1, x, t) - Polarisation(m, c.r2 * c.c2, s.vp2, c.r2, x, t)
    - Times(s.r0, x) + s.bias[j]
  }

  lemma RelaxedIs(m: Functions, tau: real, v: real, r: real, x: real, t: real)
    requires tau > 0.0
    ensures Relaxed(Decay(m, t, tau), v, r, x) == Polarisation(m, tau, v, r, x, t)
  {
  }

  lemma PartsAre(w: Case, s: Segment, r: Segment, t: real)
    requires w.c.Valid() && s.Valid() && Reached(w, s, r, t)
    ensures r.soc == Charge(s, w.x, t) && r.vp1 == Polarisation(w.m, s.tau1, s.vp1, s.r1, w.x, t)
    ensures r.vp2 == Polarisation(w.m, SecondTau(w.c), s.vp2, w.c.r2, w.x, t)
    ensures r == s.(soc := r.soc, vp1 := r.vp1, vp2 := r.vp2, core := r.core, surface := r.surface)
  {
    RelaxedIs(w.m, s.tau1, s.vp1, s.r1, w.x, t);
    RelaxedIs(w.m, SecondTau(w.c), s.vp2, w.c.r2, w.x, t);
  }

  lemma SumOfParts(m: Functions, c: Config, s: Segment, x: real, t: real, core: real, j: nat, soc: real, v: real, u: real)
    requires c.Valid() && s.Valid() && j < |s.bias| && soc == Charge(s, x, t)
    requires v == Polarisation(m, s.tau1, s.vp1, s.r1, x, t) && u == Polarisation(m, SecondTau(c), s.vp2, c.r2, x, t)
    ensures CellVoltage(m, c, s, x, t, core, j)
         == s.ocv0 + Times(s.ocvPerSoc, soc - s.soc0) + Times(s.ocvPerDegree, core - s.core0) - v - u - Times(s.r0, x) + s.bias[j]
  {
  }

  lemma BaseIs(w: Case, s: Segment, r: Segment)
    requires r == s.(soc := r.soc, vp1 := r.vp1, vp2 := r.vp2, core := r.core, surface := r.surface)
    ensures BaseVoltage(w, r)
         == s.ocv0 + Times(s.ocvPerSoc, r.soc - s.soc0) + Times(s.ocvPerDegree, r.core - s.core0) - r.vp1 - r.vp2 - Times(s.r0, w.x)
  {
  }

  lemma VoltageIs(w: Case, s: Segment, r: Segment, t: real, j: nat)
    requires w.c.Valid() && s.Valid() && Reached(w, s, r, t) && j < |s.bias|
    ensures r.bias == s.bias && BaseVoltage(w, r) + r.bias[j] == CellVoltage(w.m, w.c, s, w.x, t, r.core, j)
  {
    PartsAre(w, s, r, t);
    BaseIs(w, s, r);
    SumOfParts(w.m, w.c, s, w.x, t, r.core, j, r.soc, r.vp1, r.vp2);
  }

  // ----- the limits -----

  /** The limits on charge, in the direction of the current and with its standard deviation. */
  predicate ChargeHolds(c: Config, s: Segment, x: real, t: real, discharge: bool)
    requires s.Valid()
  {
    if discharge then Charge(s, x, t) - c.sigmaMultiplier * s.socSigma >= c.socMin
    else Charge(s, x, t) + c.sigmaMultiplier * s.socSigma <= c.socMax
  }

  predicate CoreHolds(c: Config, core: real, discharge: bool) {
    core + (c.temperatureUncertainty + c.modelTemperatureMargin) <= if discharge then c.dischargeCoreMax else c.chargeCoreMax
  }

  predicate SurfaceHolds(c: Config, surface: real, discharge: bool) {
    surface + (c.temperatureUncertainty + c.modelTemperatureMargin) <= if discharge then c.dischargeSurfaceMax else c.chargeSurfaceMax
  }

  /** Charging only, the surface must not be too cold. */
  predicate WarmEnough(c: Config, surface: real, discharge: bool) {
    discharge || surface - (c.temperatureUncertainty + c.modelTemperatureMargin) >= c.chargeTempMin
  }

  predicate CellHolds(m: Functions, c: Config, s: Segment, x: real, t: real, core: real, discharge: bool, j: nat)
    requires c.Valid() && s.Valid() && j < |s.bias|
  {
    if discharge then CellVoltage(m, c, s, x, t, core, j) - s.margin >= c.cellUv
    else CellVoltage(m, c, s, x, t, core, j) + s.margin <= c.cellOv
  }

  /** Every limit of a segment that started as s holds after drawing x for a time t. */
  ghost predicate SegmentHolds(m: Functions, c: Config, s: Segment, x: real, t: real, core: real, surface: real, discharge: bool)
    requires c.Valid() && s.Valid()
  {
    && ChargeHolds(c, s, x, t, discharge) && WarmEnough(c, surface, discharge)
    && CoreHolds(c, core, discharge) && SurfaceHolds(c, surface, discharge)
    && forall j | 0 <= j < |s.bias| :: CellHolds(m, c, s, x, t, core, discharge, j)
  }

  /** The limit that is named is the first one broken, in the order charge, cold surface, core, surface, cells. */
  ghost predicate BreaksFirst(m: Functions, c: Config, s: Segment, x: real, t: real, core: real, surface: real, discharge: bool,
                              b: Binding, cell: nat)
    requires c.Valid() && s.Valid()
  {
    if !ChargeHolds(c, s, x, t, discharge) then b == (if discharge then SocLow else SocHigh) && cell == 255
    else if !WarmEnough(c, surface, discharge) then b == ChargeTempLow && cell == 255
    else if !CoreHolds(c, core, discharge) then b == CoreTemp && cell == 255
    else if !SurfaceHolds(c, surface, discharge) then b == SurfaceTemp && cell == 255
    else
      && b == (if discharge then CellUv else CellOv) && cell < |s.bias| && !CellHolds(m, c, s, x, t, core, discharge, cell)
      && forall j | 0 <= j < cell :: CellHolds(m, c, s, x, t, core, discharge, j)
  }

  lemma CellBreaksIff(w: Case, s: Segment, r: Segment, t: real, j: nat)
    requires w.c.Valid() && s.Valid() && Reached(w, s, r, t) && j < |s.bias|
    ensures |r.bias| == |s.bias|
    ensures CellBreaks(w, r, BaseVoltage(w, r) + r.bias[j]) <==> !CellHolds(w.m, w.c, s, w.x, t, r.core, w.discharge, j)
  {
    VoltageIs(w, s, r, t, j);
  }

  lemma CellsHoldIff(w: Case, s: Segment, r: Segment, t: real, n: nat)
    requires w.c.Valid() && s.Valid() && Reached(w, s, r, t) && n <= |s.bias|
    ensures |r.bias| == |s.bias|
    ensures (forall j | 0 <= j < n :: !CellBreaks(w, r, BaseVoltage(w, r) + r.bias[j])) <==>
            (forall j | 0 <= j < n :: CellHolds(w.m, w.c, s, w.x, t, r.core, w.discharge, j))
  {
    forall j | 0 <= j < n
      ensures CellBreaks(w, r, BaseVoltage(w, r) + r.bias[j]) <==> !CellHolds(w.m, w.c, s, w.x, t, r.core, w.discharge, j)
    {
      CellBreaksIff(w, s, r, t, j);
    }
  }

  lemma WithinIff(w: Case, s: Segment, r: Segment, t: real)
    requires w.c.Valid() && s.Valid() && Reached(w, s, r, t)
    ensures Within(w, r) <==> SegmentHolds(w.m, w.c, s, w.x, t, r.core, r.surface, w.discharge)
  {
    CellsHoldIff(w, s, r, t, |s.bias|);
  }

  lemma JustifiedIs(w: Case, s: Segment, r: Segment, t: real, f: Fault)
    requires w.c.Valid() && s.Valid() && Reached(w, s, r, t) && Justified(w, r, f) && !Within(w, r)
    ensures BreaksFirst(w.m, w.c, s, w.x, t, r.core, r.surface, w.discharge, f.binding, f.cell)
  {
    if SegmentFault(w, r).None? {
      CellBreaksIff(w, s, r, t, f.cell);
      CellsHoldIff(w, s, r, t, f.cell);
    }
  }

  // ----- a whole evaluation -----

  /** Every limit of every segment holds after a time t at current x, the segments now being at the temperatures of state. */
  ghost predicate AllHold(m: Functions, c: Config, segs: Segments, state: Segments, x: real, t: real, discharge: bool)
    requires c.Valid() && AllValid(segs)
  {
    |state| == |segs| && forall i | 0 <= i < |segs| :: SegmentHolds(m, c, segs[i], x, t, state[i].core, state[i].surface, discharge)
  }

  lemma AllWithinIff(w: Case, segs: Segments, dts: seq<real>, k: nat)
    requires w.m.Valid() && w.c.Valid() && AllValid(segs) && AllPositive(dts) && k <= |dts|
    ensures AllWithin(w, StateAt(w, segs, dts, k)) <==>
      AllHold(w.m, w.c, segs, StateAt(w, segs, dts, k), w.x, Elapsed(dts, k), w.discharge)
  {
    var state, t := StateAt(w, segs, dts, k), Elapsed(dts, k);
    forall i | 0 <= i < |segs|
      ensures Within(w, state[i]) <==> SegmentHolds(w.m, w.c, segs[i], w.x, t, state[i].core, state[i].surface, w.discharge)
    {
      ScheduleDoesNotMatter(w, segs, dts, k, i);
      WithinIff(w, segs[i], state[i], t);
    }
  }

  ghost predicate HoldsUpTo(w: Case, segs: Segments, dts: seq<real>, n: nat)
    requires w.c.Valid() && AllValid(segs) && AllPositive(dts) && n <= |dts|
  {
    forall k | 1 <= k <= n :: AllHold(w.m, w.c, segs, StateAt(w, segs, dts, k), w.x, Elapsed(dts, k), w.discharge)
  }

  lemma WithinUpToIff(w: Case, segs: Segments, dts: seq<real>, n: nat)
    requires w.m.Valid() && w.c.Valid() && AllValid(segs) && AllPositive(dts) && n <= |dts|
    ensures WithinUpTo(w, segs, dts, n) <==> HoldsUpTo(w, segs, dts, n)
  {
    forall k | 1 <= k <= n
      ensures AllWithin(w, StateAt(w, segs, dts, k)) <==>
        AllHold(w.m, w.c, segs, StateAt(w, segs, dts, k), w.x, Elapsed(dts, k), w.discharge)
    {
      AllWithinIff(w, segs, dts, k);
    }
  }

  /** The first broken limit in this state is that of the evaluation. */
  ghost predicate StopsAt(m: Functions, c: Config, segs: Segments, state: Segments, x: real, t: real, discharge: bool, e: Evaluation)
    requires c.Valid() && AllValid(segs)
  {
    && |state| == |segs| && e.segment < |segs|
    && (forall i | 0 <= i < e.segment :: SegmentHolds(m, c, segs[i], x, t, state[i].core, state[i].surface, discharge))
    && BreaksFirst(m, c, segs[e.segment], x, t, state[e.segment].core, state[e.segment].surface, discharge, e.binding, e.cell)
  }

  lemma StopIs(w: Case, segs: Segments, dts: seq<real>, k: nat, e: Evaluation)
    requires w.m.Valid() && w.c.Valid() && AllValid(segs) && AllPositive(dts) && k <= |dts|
    requires NamesFirst(w, StateAt(w, segs, dts, k), e)
    ensures StopsAt(w.m, w.c, segs, StateAt(w, segs, dts, k), w.x, Elapsed(dts, k), w.discharge, e)
  {
    var state, t := StateAt(w, segs, dts, k), Elapsed(dts, k);
    forall i | 0 <= i < e.segment ensures SegmentHolds(w.m, w.c, segs[i], w.x, t, state[i].core, state[i].surface, w.discharge) {
      ScheduleDoesNotMatter(w, segs, dts, k, i);
      WithinIff(w, segs[i], state[i], t);
    }
    ScheduleDoesNotMatter(w, segs, dts, k, e.segment);
    JustifiedIs(w, segs[e.segment], state[e.segment], t, Fault(e.binding, e.segment, e.cell));
  }

  /** How an evaluation ends: after as many steps as held, feasible exactly if those are all, and otherwise at the first limit
      that breaks. */
  ghost predicate Ends(w: Case, segs: Segments, dts: seq<real>, e: Evaluation)
    requires w.c.Valid() && AllValid(segs) && AllPositive(dts)
  {
    && e.steps <= |dts| && HoldsUpTo(w, segs, dts, e.steps) && (e.feasible <==> e.steps == |dts|)
    && (!e.feasible ==> StopsAt(w.m, w.c, segs, StateAt(w, segs, dts, e.steps + 1), w.x, Elapsed(dts, e.steps + 1), w.discharge, e))
  }

  lemma EndedAtSteps(w: Case, segs: Segments, dts: seq<real>, e: Evaluation)
    requires w.c.Valid() && AllValid(segs) && AllPositive(dts) && e == Evaluate(w, segs, dts, 0.0, 0)
    ensures e.steps <= |dts| && WithinUpTo(w, segs, dts, e.steps) && (e.feasible <==> e.steps == |dts|)
    ensures e.packVoltage == (if e.steps == 0 then 0.0 else PackVoltage(w, StateAt(w, segs, dts, e.steps), |segs|))
    ensures !e.feasible ==> NamesFirst(w, StateAt(w, segs, dts, e.steps + 1), e)
  {
    EvaluationExplained(w, segs, dts, 0.0, 0);
    var n: nat :| e.steps == 0 + n && Ended(w, segs, dts, 0.0, n, e);
  }

  lemma EndsFrom(w: Case, segs: Segments, dts: seq<real>, e: Evaluation)
    requires w.m.Valid() && w.c.Valid() && AllValid(segs) && AllPositive(dts)
    requires e.steps <= |dts| && WithinUpTo(w, segs, dts, e.steps) && (e.feasible <==> e.steps == |dts|)
    requires !e.feasible ==> NamesFirst(w, StateAt(w, segs, dts, e.steps + 1), e)
    ensures Ends(w, segs, dts, e)
  {
    WithinUpToIff(w, segs, dts, e.steps);
    if !e.feasible { StopIs(w, segs, dts, e.steps + 1, e); }
  }

  lemma EndsInClosedForm(w: Case, segs: Segments, dts: seq<real>, e: Evaluation)
    requires w.m.Valid() && w.c.Valid() && AllValid(segs) && AllPositive(dts) && e == Evaluate(w, segs, dts, 0.0, 0)
    ensures Ends(w, segs, dts, e)
  {
    EndedAtSteps(w, segs, dts, e);
    EndsFrom(w, segs, dts, e);
  }

  /** Feasible means exactly that every limit holds after every step, written out in the start values. */
  lemma FeasibleInClosedForm(w: Case, segs: Segments, dts: seq<real>)
    requires w.m.Valid() && w.c.Valid() && AllValid(segs) && AllPositive(dts)
    ensures Evaluate(w, segs, dts, 0.0, 0).feasible <==> HoldsUpTo(w, segs, dts, |dts|)
  {
    FeasibleIffAlwaysWithin(w, segs, dts, 0.0, 0);
    WithinUpToIff(w, segs, dts, |dts|);
  }

  /** The cells carry the requested current, pushed outwards by the larger of its uncertainty and the floor, shared among the
      parallel cells. */
  lemma CheckedCurrent(m: Functions, data: Data, c: Config, current: real, discharge: bool)
    requires c.Valid()
    ensures var w := CaseOf(m, data, c, current, discharge);
      var u := if data.uncertainty >= c.currentFloor then data.uncertainty else c.currentFloor;
      && Times(w.x, c.parallelCells) == (if discharge then current + u else current - u)
      && w.m == m && w.c == c && w.ambient == data.ambient && w.discharge == discharge
  {
    QuotientSign(if discharge then current + Max(data.uncertainty, c.currentFloor) else current - Max(data.uncertainty, c.currentFloor),
                 c.parallelCells);
  }

  /** The same for a requested current: its evaluation ends at the first broken limit along the schedule of its horizon. */
  lemma RequestInClosedForm(m: Functions, data: Data, c: Config, current: real, discharge: bool, horizon: real)
    requires m.Valid() && c.Valid() && AllValid(data.segments)
    ensures var w, dts, e := CaseOf(m, data, c, current, discharge), Steps0(c, horizon), EvaluateAt(m, data, c, current, discharge, horizon);
      && Ends(w, data.segments, dts, e)
      && (e.feasible <==> HoldsUpTo(w, data.segments, dts, |dts|))
  {
    var w, dts := CaseOf(m, data, c, current, discharge), Steps0(c, horizon);
    EndsInClosedForm(w, data.segments, dts, EvaluateAt(m, data, c, current, discharge, horizon));
    FeasibleInClosedForm(w, data.segments, dts);
  }

  // ----- the pack voltage -----

  /** The sum of the first n cell voltages of a segment. */
  function CellSum(m: Functions, c: Config, s: Segment, x: real, t: real, core: real, n: nat): real
    requires c.Valid() && s.Valid() && n <= |s.bias|
  {
    if n == 0 then 0.0 else CellSum(m, c, s, x, t, core, n - 1) + CellVoltage(m, c, s, x, t, core, n - 1)
  }

  /** The sum over the cells of the first n segments. */
  function SeriesSum(m: Functions, c: Config, segs: Segments, state: Segments, x: real, t: real, n: nat): real
    requires c.Valid() && AllValid(segs) && n <= |segs| == |state|
  {
    if n == 0 then 0.0
    else SeriesSum(m, c, segs, state, x, t, n - 1) + CellSum(m, c, segs[n - 1], x, t, state[n - 1].core, |segs[n - 1].bias|)
  }

  lemma {:induction false} CellSumIs(w: Case, s: Segment, r: Segment, t: real, n: nat)
    requires w.c.Valid() && s.Valid() && Reached(w, s, r, t) && n <= |s.bias|
    ensures r.bias == s.bias && SegmentVoltage(w, r, n) == CellSum(w.m, w.c, s, w.x, t, r.core, n)
    decreases n
  {
    if n > 0 {
      CellSumIs(w, s, r, t, n - 1);
      VoltageIs(w, s, r, t, n - 1);
    }
  }

  lemma {:induction false} SeriesSumIs(w: Case, segs: Segments, dts: seq<real>, k: nat, n: nat)
    requires w.m.Valid() && w.c.Valid() && AllValid(segs) && AllPositive(dts) && k <= |dts| && n <= |segs|
    ensures PackVoltage(w, StateAt(w, segs, dts, k), n) == SeriesSum(w.m, w.c, segs, StateAt(w, segs, dts, k), w.x, Elapsed(dts, k), n)
    decreases n
  {
    if n > 0 {
      SeriesSumIs(w, segs, dts, k, n - 1);
      ScheduleDoesNotMatter(w, segs, dts, k, n - 1);
      CellSumIs(w, segs[n - 1], StateAt(w, segs, dts, k)[n - 1], Elapsed(dts, k), |segs[n - 1].bias|);
    }
  }

  /** The pack voltage of an evaluation is the series sum of all its cell voltages after the last step that held. */
  lemma PackInClosedForm(w: Case, segs: Segments, dts: seq<real>)
    requires w.m.Valid() && w.c.Valid() && AllValid(segs) && AllPositive(dts)
    ensures var e := Evaluate(w, segs, dts, 0.0, 0);
      && e.steps <= |dts|
      && e.packVoltage == if e.steps == 0 then 0.0
         else SeriesSum(w.m, w.c, segs, StateAt(w, segs, dts, e.steps), w.x, Elapsed(dts, e.steps), |segs|)
  {
    var e := Evaluate(w, segs, dts, 0.0, 0);
    EndedAtSteps(w, segs, dts, e);
    SeriesSumIs(w, segs, dts, e.steps, |segs|);
  }

  // ----- the heat balance -----

  lemma CapacityTimes(r: real, c: real, h: real)
    requires r > 0.0 && c > 0.0
    ensures Times(c, h * Reciprocal(r, c)) == h / r
  {
    var q := Reciprocal(r, c);
    ProductPositive(r, c);
    assert q * (r * c) == 1.0;
    assert (c * q) * r == 1.0;
    var p := 1.0 / r;
    assert p * r == 1.0;
    assert ((c * q) - p) * r == 0.0;
    assert c * (h * q) == h * (c * q);
  }

  lemma BalanceTerm(c: real, k: real, g: real, d: real)
    requires Times(c, k) == g
    ensures c * (k * d) == g * d
  {
    assert c * (k * d) == (c * k) * d;
  }

  lemma WarmthTimes(c: Config, heat: real, dt: real, w: real)
    requires c.Valid() && w == Thermal.Warmth(RatesOf(c), heat, dt)
    ensures c.coreCapacity * w == Times(dt, heat)
  {
    QuotientSign(dt * heat, c.coreCapacity);
  }

  /** A node's share of the trapezoidal rule, multiplied by its capacity. */
  lemma Stored(c: real, r: real, h: real, d: real, more: real, x: real, y: real)
    requires c > 0.0 && r > 0.0 && x == h * Reciprocal(r, c) * d + more && c * more == y
    ensures Times(c, x) == Times(h / r, d) + y
  {
    CapacityTimes(r, c, h);
    BalanceTerm(c, h * Reciprocal(r, c), h / r, d);
  }

  lemma CoreBalance(c: Config, n: Thermal.Nodes, m: Thermal.Nodes, heat: real, ambient: real, dt: real, h: real)
    requires c.Valid()
    requires Thermal.Trapezoidal(RatesOf(c), n, m, Thermal.Warmth(RatesOf(c), heat, dt), ambient, h)
    ensures Times(c.coreCapacity, m.core - n.core)
         == Times(h / c.coreToSurface, (n.surface - n.core) + (m.surface - m.core)) + Times(dt, heat)
  {
    var w := Thermal.Warmth(RatesOf(c), heat, dt);
    WarmthTimes(c, heat, dt, w);
    Stored(c.coreCapacity, c.coreToSurface, h, (n.surface - n.core) + (m.surface - m.core), w, m.core - n.core, Times(dt, heat));
  }

  lemma Outflow(c: Config, d: real, h: real, out: real)
    requires c.Valid() && out == h * Reciprocal(c.surfaceToAmbient, c.surfaceCapacity) * d
    ensures c.surfaceCapacity * out == Times(h / c.surfaceToAmbient, d)
  {
    CapacityTimes(c.surfaceToAmbient, c.surfaceCapacity, h);
    BalanceTerm(c.surfaceCapacity, h * Reciprocal(c.surfaceToAmbient, c.surfaceCapacity), h / c.surfaceToAmbient, d);
  }

  lemma SurfaceBalance(c: Config, n: Thermal.Nodes, m: Thermal.Nodes, warmth: real, ambient: real, h: real)
    requires c.Valid() && Thermal.Trapezoidal(RatesOf(c), n, m, warmth, ambient, h)
    ensures Times(c.surfaceCapacity, m.surface - n.surface)
         == Times(h / c.coreToSurface, (n.core - n.surface) + (m.core - m.surface))
          + Times(h / c.surfaceToAmbient, (ambient - n.surface) + (ambient - m.surface))
  {
    var d := (ambient - n.surface) + (ambient - m.surface);
    var out := h * Reciprocal(c.surfaceToAmbient, c.surfaceCapacity) * d;
    Outflow(c, d, h, out);
    Stored(c.surfaceCapacity, c.coreToSurface, h, (n.core - n.surface) + (m.core - m.surface), out, m.surface - n.surface,
           Times(h / c.surfaceToAmbient, d));
  }

  lemma StepIsThermal(w: Case, s: Segment, dt: real, r: Segment, n: Thermal.Nodes, m: Thermal.Nodes, heat: real)
    requires w.c.Valid() && s.Valid() && dt > 0.0 && r == Advance(w, s, dt)
    requires n == Thermal.Nodes(s.core, s.surface) && m == Thermal.Nodes(r.core, r.surface) && heat == Heat(w.x, s.r0 + s.r1 + w.c.r2)
    ensures m == Thermal.Step(RatesOf(w.c), n, heat, w.ambient, dt)
  {
  }

  lemma HeatIs(x: real, resistance: real, heat: real)
    requires heat == x * x * resistance
    ensures heat == Heat(x, resistance)
  {
  }

  /** A step conserves heat: what each node stores is what flows in across its thermal resistances, at the mean temperature
      differences of the step, and in the core the ohmic heat of all three resistances. */
  lemma StepBalancesHeat(w: Case, s: Segment, dt: real, r: Segment, h: real, heat: real)
    requires w.c.Valid() && s.Valid() && dt > 0.0 && r == Advance(w, s, dt) && h == 0.5 * dt
    requires heat == w.x * w.x * (s.r0 + s.r1 + w.c.r2)
    ensures Times(w.c.coreCapacity, r.core - s.core)
         == Times(h / w.c.coreToSurface, (s.surface - s.core) + (r.surface - r.core)) + Times(dt, heat)
    ensures Times(w.c.surfaceCapacity, r.surface - s.surface)
         == Times(h / w.c.coreToSurface, (s.core - s.surface) + (r.core - r.surface))
          + Times(h / w.c.surfaceToAmbient, (w.ambient - s.surface) + (w.ambient - r.surface))
  {
    var n, m := Thermal.Nodes(s.core, s.surface), Thermal.Nodes(r.core, r.surface);
    HeatIs(w.x, s.r0 + s.r1 + w.c.r2, heat);
    StepIsThermal(w, s, dt, r, n, m, heat);
    BalancesHeat(w.c, n, m, heat, w.ambient, dt, h);
  }

  lemma BalancesHeat(c: Config, n: Thermal.Nodes, m: Thermal.Nodes, heat: real, ambient: real, dt: real, h: real)
    requires c.Valid() && dt > 0.0 && h == 0.5 * dt && m == Thermal.Step(RatesOf(c), n, heat, ambient, dt)
    ensures Times(c.coreCapacity, m.core - n.core)
         == Times(h / c.coreToSurface, (n.surface - n.core) + (m.surface - m.core)) + Times(dt, heat)
    ensures Times(c.surfaceCapacity, m.surface - n.surface)
         == Times(h / c.coreToSurface, (n.core - n.surface) + (m.core - m.surface))
          + Times(h / c.surfaceToAmbient, (ambient - n.surface) + (ambient - m.surface))
  {
    Thermal.StepIsTrapezoidal(RatesOf(c), n, heat, ambient, dt);
    CoreBalance(c, n, m, heat, ambient, dt, h);
    SurfaceBalance(c, n, m, Thermal.Warmth(RatesOf(c), heat, dt), ambient, h);
  }

  /** The temperatures of a run are those of its steps, one after the other. */
  lemma {:induction false} RunIsStepwise(w: Case, segs: Segments, dts: seq<real>, k: nat, i: nat)
    requires w.c.Valid() && AllValid(segs) && AllPositive(dts) && k < |dts| && i < |segs|
    ensures StateAt(w, segs, dts, k + 1)[i] == Advance(w, StateAt(w, segs, dts, k)[i], dts[k])
    decreases k
  {
    if k > 0 { RunIsStepwise(w, AdvanceAll(w, segs, dts[0]), dts[1..], k - 1, i); }
  }
}
