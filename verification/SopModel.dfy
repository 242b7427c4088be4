/** The electrothermal model behind the State-of-Power search: one step of a segment, the limits it is
    checked against, and what evaluating a current over a schedule answers (model.py). */
module SopModel {
  import opened Options
  import opened Reals
  import opened Elementary
  import opened SopSchedule
  import Thermal = SopThermal

  datatype Binding = NoBinding | CellUv | CellOv | SocLow | SocHigh | CoreTemp | SurfaceTemp | ChargeTempLow
                   | CurrentPath | HorizonEnvelope

  /** The model state of a segment and the constants derived for it; `socSigma` is the standard deviation
      of the state of charge. */
  datatype Segment = Segment(
    soc: real, vp1: real, vp2: real, core: real, surface: real, soc0: real, core0: real,
    ocv0: real, ocvPerSoc: real, ocvPerDegree: real, r0: real, r1: real, tau1: real, capacity: real,
    margin: real, bias: seq<real>, socSigma: real)
  {
    /** What the source divides by is positive. */
    predicate Valid() { tau1 > 0.0 && capacity > 0.0 }
  }

  datatype Config = Config(
    cellUv: real, cellOv: real, socMin: real, socMax: real,
    dischargeCoreMax: real, dischargeSurfaceMax: real, chargeCoreMax: real, chargeSurfaceMax: real, chargeTempMin: real,
    parallelCells: real, r2: real, c2: real,
    coreCapacity: real, surfaceCapacity: real, coreToSurface: real, surfaceToAmbient: real,
    sigmaMultiplier: real, temperatureUncertainty: real, modelTemperatureMargin: real, currentFloor: real, steps: Steps)
  {
    predicate Valid() {
      && parallelCells > 0.0 && r2 > 0.0 && c2 > 0.0 && steps.Valid()
      && coreCapacity > 0.0 && surfaceCapacity > 0.0 && coreToSurface > 0.0 && surfaceToAmbient > 0.0
    }

    function TemperatureMargin(): real { temperatureUncertainty + modelTemperatureMargin }
  }

  /** Everything an evaluation holds fixed: the cell current x and its direction, and the surroundings. */
  datatype Case = Case(m: Functions, c: Config, ambient: real, x: real, discharge: bool)

  type Segments = seq<Segment>

  predicate AllValid(segs: Segments) { forall i | 0 <= i < |segs| :: segs[i].Valid() }

  // ----- one step of one segment -----

  function Reciprocal(x: real, y: real): (r: real)
    requires x > 0.0 && y > 0.0
    ensures r > 0.0
  {
    ProductPositive(x, y);
    QuotientSign(1.0, x * y);
    1.0 / (x * y)
  }

  function RatesOf(c: Config): (r: Thermal.Rates)
    requires c.Valid()
    ensures r.Valid()
  {
    Thermal.Rates(Reciprocal(c.coreToSurface, c.coreCapacity), Reciprocal(c.coreToSurface, c.surfaceCapacity),
                  Reciprocal(c.surfaceToAmbient, c.surfaceCapacity), c.coreCapacity)
  }

  /** A polarisation voltage relaxing towards r * x, of which the share a is left. */
  function Relaxed(a: real, v: real, r: real, x: real): real { a * v + r * (1.0 - a) * x }

  function Decay(m: Functions, dt: real, tau: real): real
    requires tau > 0.0
  {
    m.exp(-dt / tau)
  }

  function SecondTau(c: Config): (tau: real)
    requires c.Valid()
    ensures tau > 0.0
  {
    ProductPositive(c.r2, c.c2);
    c.r2 * c.c2
  }

  function Heat(x: real, resistance: real): real { x * x * resistance }

  function SocAfter(soc: real, x: real, dt: real, capacity: real): real
    requires capacity > 0.0
  {
    soc - x * dt / capacity
  }

  function NodesAfter(w: Case, s: Segment, dt: real): Thermal.Nodes
    requires w.c.Valid() && dt > 0.0
  {
    Thermal.Step(RatesOf(w.c), Thermal.Nodes(s.core, s.surface), Heat(w.x, s.r0 + s.r1 + w.c.r2), w.ambient, dt)
  }

  function Advance(w: Case, s: Segment, dt: real): (r: Segment)
    requires w.c.Valid() && s.Valid() && dt > 0.0
    ensures r.Valid()
  {
    var nodes := NodesAfter(w, s, dt);
    s.(vp1 := Relaxed(Decay(w.m, dt, s.tau1), s.vp1, s.r1, w.x),
       vp2 := Relaxed(Decay(w.m, dt, SecondTau(w.c)), s.vp2, w.c.r2, w.x),
       soc := SocAfter(s.soc, w.x, dt, s.capacity), core := nodes.core, surface := nodes.surface)
  }

  // ----- the limits -----

  function SocSpread(c: Config, s: Segment): real { c.sigmaMultiplier * s.socSigma }

  /** The first state-of-charge or temperature limit the segment breaks. */
  function SegmentFault(w: Case, s: Segment): Option<Binding> {
    var c, margin := w.c, w.c.TemperatureMargin();
    if w.discharge then
      if s.soc - SocSpread(c, s) < c.socMin then Some(SocLow)
      else if s.core + margin > c.dischargeCoreMax then Some(CoreTemp)
      else if s.surface + margin > c.dischargeSurfaceMax then Some(SurfaceTemp)
      else None
    else
      if s.soc + SocSpread(c, s) > c.socMax then Some(SocHigh)
      else if s.surface - margin < c.chargeTempMin then Some(ChargeTempLow)
      else if s.core + margin > c.chargeCoreMax then Some(CoreTemp)
      else if s.surface + margin > c.chargeSurfaceMax then Some(SurfaceTemp)
      else None
  }

  function OpenCircuit(s: Segment): real {
    s.ocv0 + Times(s.ocvPerSoc, s.soc - s.soc0) + Times(s.ocvPerDegree, s.core - s.core0)
  }

  function BaseVoltage(w: Case, s: Segment): real { OpenCircuit(s) - s.vp1 - s.vp2 - Times(s.r0, w.x) }

  predicate CellBreaks(w: Case, s: Segment, voltage: real) {
    if w.discharge then voltage - s.margin < w.c.cellUv else voltage + s.margin > w.c.cellOv
  }

  /** The first cell from k on that breaks the voltage limit. */
  function FirstBadCell(w: Case, s: Segment, k: nat): (r: Option<nat>)
    requires k <= |s.bias|
    decreases |s.bias| - k
  {
    if k == |s.bias| then None
    else if CellBreaks(w, s, BaseVoltage(w, s) + s.bias[k]) then Some(k)
    else FirstBadCell(w, s, k + 1)
  }

  datatype Fault = Fault(binding: Binding, segment: nat, cell: nat)

  const UNLIMITED: nat := 255

  function CellBinding(w: Case): Binding { if w.discharge then CellUv else CellOv }

  /** The first limit that segment i breaks: state of charge and temperature before the cells. */
  function FaultOf(w: Case, s: Segment, i: nat): Option<Fault> {
    if SegmentFault(w, s).Some? then Some(Fault(SegmentFault(w, s).value, i, UNLIMITED))
    else if FirstBadCell(w, s, 0).Some? then Some(Fault(CellBinding(w), i, FirstBadCell(w, s, 0).value))
    else None
  }

  /** The first limit broken by the segments from i on. */
  function StateFault(w: Case, segs: Segments, i: nat): Option<Fault>
    requires i <= |segs|
    decreases |segs| - i
  {
    if i == |segs| then None
    else if FaultOf(w, segs[i], i).Some? then FaultOf(w, segs[i], i)
    else StateFault(w, segs, i + 1)
  }

  function SegmentVoltage(w: Case, s: Segment, k: nat): real
    requires k <= |s.bias|
  {
    if k == 0 then 0.0 else SegmentVoltage(w, s, k - 1) + (BaseVoltage(w, s) + s.bias[k - 1])
  }

  /** The series voltage of the first i segments. */
  function PackVoltage(w: Case, segs: Segments, i: nat): real
    requires i <= |segs|
  {
    if i == 0 then 0.0 else PackVoltage(w, segs, i - 1) + SegmentVoltage(w, segs[i - 1], |segs[i - 1].bias|)
  }

  // ----- a whole evaluation -----

  function AdvanceAll(w: Case, segs: Segments, dt: real): (r: Segments)
    requires w.c.Valid() && AllValid(segs) && dt > 0.0
    ensures |r| == |segs| && AllValid(r)
    ensures forall i | 0 <= i < |segs| :: r[i] == Advance(w, segs[i], dt)
  {
    seq(|segs|, i requires 0 <= i < |segs| => Advance(w, segs[i], dt))
  }

  datatype Evaluation = Evaluation(feasible: bool, binding: Binding, segment: nat, cell: nat, packVoltage: real, steps: nat)

  predicate AllPositive(dts: seq<real>) { forall k | 0 <= k < |dts| :: dts[k] > 0.0 }

  /** Runs the steps until a limit breaks; the pack voltage is that of the last step that passed. */
  function Evaluate(w: Case, segs: Segments, dts: seq<real>, pack: real, steps: nat): Evaluation
    requires w.c.Valid() && AllValid(segs) && AllPositive(dts)
    decreases |dts|
  {
    if dts == [] then Evaluation(true, NoBinding, UNLIMITED, UNLIMITED, pack, steps)
    else
      var next := AdvanceAll(w, segs, dts[0]);
      match StateFault(w, next, 0)
      case Some(f) => Evaluation(false, f.binding, f.segment, f.cell, pack, steps)
      case None => Evaluate(w, next, dts[1..], PackVoltage(w, next, |next|), steps + 1)
  }

  // ----- what feasible means -----

  /** The segment breaks a limit of this kind, margins included. */
  predicate Breaks(w: Case, s: Segment, b: Binding) {
    match b
    case SocLow => w.discharge && s.soc < w.c.socMin + SocSpread(w.c, s)
    case SocHigh => !w.discharge && s.soc > w.c.socMax - SocSpread(w.c, s)
    case ChargeTempLow => !w.discharge && s.surface < w.c.chargeTempMin + w.c.TemperatureMargin()
    case CoreTemp => s.core > (if w.discharge then w.c.dischargeCoreMax else w.c.chargeCoreMax) - w.c.TemperatureMargin()
    case SurfaceTemp => s.surface > (if w.discharge then w.c.dischargeSurfaceMax else w.c.chargeSurfaceMax) - w.c.TemperatureMargin()
    case _ => false
  }

  /** Every limit of the segment and of its cells holds. */
  predicate Within(w: Case, s: Segment) {
    && !Breaks(w, s, SocLow) && !Breaks(w, s, SocHigh) && !Breaks(w, s, ChargeTempLow)
    && !Breaks(w, s, CoreTemp) && !Breaks(w, s, SurfaceTemp)
    && forall j | 0 <= j < |s.bias| :: !CellBreaks(w, s, BaseVoltage(w, s) + s.bias[j])
  }

  lemma FaultIsBreak(w: Case, s: Segment)
    ensures match SegmentFault(w, s)
      case Some(b) => Breaks(w, s, b)
      case None => !Breaks(w, s, SocLow) && !Breaks(w, s, SocHigh) && !Breaks(w, s, ChargeTempLow)
                   && !Breaks(w, s, CoreTemp) && !Breaks(w, s, SurfaceTemp)
  {
  }

  predicate AllWithin(w: Case, segs: Segments) { forall i | 0 <= i < |segs| :: Within(w, segs[i]) }

  /** The segments after the first k steps. */
  function StateAt(w: Case, segs: Segments, dts: seq<real>, k: nat): (r: Segments)
    requires w.c.Valid() && AllValid(segs) && AllPositive(dts) && k <= |dts|
    ensures |r| == |segs| && AllValid(r)
    decreases k
  {
    if k == 0 then segs else StateAt(w, AdvanceAll(w, segs, dts[0]), dts[1..], k - 1)
  }

  lemma {:induction false} BadCellIsFirst(w: Case, s: Segment, k: nat)
    requires k <= |s.bias|
    ensures match FirstBadCell(w, s, k)
      case None => forall j | k <= j < |s.bias| :: !CellBreaks(w, s, BaseVoltage(w, s) + s.bias[j])
      case Some(n) =>
        && k <= n < |s.bias| && CellBreaks(w, s, BaseVoltage(w, s) + s.bias[n])
        && forall j | k <= j < n :: !CellBreaks(w, s, BaseVoltage(w, s) + s.bias[j])
    decreases |s.bias| - k
  {
    if k < |s.bias| { BadCellIsFirst(w, s, k + 1); }
  }

  /** A fault names a limit its segment really breaks. */
  ghost predicate Justified(w: Case, s: Segment, f: Fault) {
    || (SegmentFault(w, s) == Some(f.binding) && Breaks(w, s, f.binding) && f.cell == UNLIMITED)
    || (SegmentFault(w, s).None? && f.binding == CellBinding(w) && f.cell < |s.bias|
        && CellBreaks(w, s, BaseVoltage(w, s) + s.bias[f.cell])
        && forall j | 0 <= j < f.cell :: !CellBreaks(w, s, BaseVoltage(w, s) + s.bias[j]))
  }

  lemma {:induction false} FaultIsFirst(w: Case, segs: Segments, i: nat)
    requires i <= |segs|
    ensures match StateFault(w, segs, i)
      case None => forall j | i <= j < |segs| :: Within(w, segs[j])
      case Some(f) =>
        && i <= f.segment < |segs| && !Within(w, segs[f.segment]) && Justified(w, segs[f.segment], f)
        && forall j | i <= j < f.segment :: Within(w, segs[j])
    decreases |segs| - i
  {
    if i < |segs| {
      FaultIsBreak(w, segs[i]);
      BadCellIsFirst(w, segs[i], 0);
      FaultIsFirst(w, segs, i + 1);
    }
  }

  /** The evaluation names the first limit broken in this state. */
  ghost predicate NamesFirst(w: Case, bad: Segments, e: Evaluation) {
    && e.segment < |bad| && Justified(w, bad[e.segment], Fault(e.binding, e.segment, e.cell))
    && !Within(w, bad[e.segment]) && forall j | 0 <= j < e.segment :: Within(w, bad[j])
  }

  ghost predicate WithinUpTo(w: Case, segs: Segments, dts: seq<real>, n: nat)
    requires w.c.Valid() && AllValid(segs) && AllPositive(dts) && n <= |dts|
  {
    forall k | 1 <= k <= n :: AllWithin(w, StateAt(w, segs, dts, k))
  }

  /** How an evaluation that started with these values ended, after n steps that passed. */
  ghost predicate Ended(w: Case, segs: Segments, dts: seq<real>, pack: real, n: nat, e: Evaluation)
    requires w.c.Valid() && AllValid(segs) && AllPositive(dts)
  {
    && n <= |dts| && WithinUpTo(w, segs, dts, n) && (e.feasible <==> n == |dts|)
    && e.packVoltage == (if n == 0 then pack else PackVoltage(w, StateAt(w, segs, dts, n), |segs|))
    && (if e.feasible then e.binding == NoBinding && e.segment == UNLIMITED && e.cell == UNLIMITED
        else NamesFirst(w, StateAt(w, segs, dts, n + 1), e))
  }

  lemma StateAtShifts(w: Case, segs: Segments, dts: seq<real>, k: nat)
    requires w.c.Valid() && AllValid(segs) && AllPositive(dts) && 1 <= k <= |dts|
    ensures AllPositive(dts[1..])
    ensures StateAt(w, segs, dts, k) == StateAt(w, AdvanceAll(w, segs, dts[0]), dts[1..], k - 1)
  {
  }

  lemma WithinShifts(w: Case, segs: Segments, dts: seq<real>, n: nat)
    requires w.c.Valid() && AllValid(segs) && AllPositive(dts) && n < |dts|
    requires AllWithin(w, AdvanceAll(w, segs, dts[0]))
    requires AllPositive(dts[1..]) && WithinUpTo(w, AdvanceAll(w, segs, dts[0]), dts[1..], n)
    ensures WithinUpTo(w, segs, dts, n + 1)
  {
    forall k | 1 <= k <= n + 1 ensures AllWithin(w, StateAt(w, segs, dts, k)) { StateAtShifts(w, segs, dts, k); }
  }

  /** Some number of steps passed, and the evaluation ended accordingly. */
  ghost predicate Explained(w: Case, segs: Segments, dts: seq<real>, pack: real, steps: nat, e: Evaluation)
    requires w.c.Valid() && AllValid(segs) && AllPositive(dts)
  {
    exists n: nat :: e.steps == steps + n && Ended(w, segs, dts, pack, n, e)
  }

  lemma EndsAtOnce(w: Case, segs: Segments, pack: real, steps: nat)
    requires w.c.Valid() && AllValid(segs)
    ensures Explained(w, segs, [], pack, steps, Evaluation(true, NoBinding, UNLIMITED, UNLIMITED, pack, steps))
  {
    assert Ended(w, segs, [], pack, 0, Evaluation(true, NoBinding, UNLIMITED, UNLIMITED, pack, steps));
  }

  lemma StopsHere(w: Case, segs: Segments, dts: seq<real>, pack: real, steps: nat, f: Fault)
    requires w.c.Valid() && AllValid(segs) && AllPositive(dts) && dts != []
    requires StateFault(w, AdvanceAll(w, segs, dts[0]), 0) == Some(f)
    ensures Explained(w, segs, dts, pack, steps, Evaluation(false, f.binding, f.segment, f.cell, pack, steps))
  {
    FaultIsFirst(w, AdvanceAll(w, segs, dts[0]), 0);
    StateAtShifts(w, segs, dts, 1);
    assert Ended(w, segs, dts, pack, 0, Evaluation(false, f.binding, f.segment, f.cell, pack, steps));
  }

  lemma {:induction false} GoesOn(w: Case, segs: Segments, dts: seq<real>, pack: real, steps: nat, e: Evaluation)
    requires w.c.Valid() && AllValid(segs) && AllPositive(dts) && dts != []
    requires StateFault(w, AdvanceAll(w, segs, dts[0]), 0).None? && AllPositive(dts[1..])
    requires var next := AdvanceAll(w, segs, dts[0]); Explained(w, next, dts[1..], PackVoltage(w, next, |next|), steps + 1, e)
    ensures Explained(w, segs, dts, pack, steps, e)
  {
    var next := AdvanceAll(w, segs, dts[0]);
    var n: nat :| e.steps == steps + 1 + n && Ended(w, next, dts[1..], PackVoltage(w, next, |next|), n, e);
    FaultIsFirst(w, next, 0);
    WithinShifts(w, segs, dts, n);
    StateAtShifts(w, segs, dts, n + 1);
    if n + 1 < |dts| { StateAtShifts(w, segs, dts, n + 2); }
    assert Ended(w, segs, dts, pack, n + 1, e);
  }

  /** An evaluation stops at the first step, first segment and first limit or cell that breaks, and names
      it; the steps before it all hold. */
  lemma {:induction false} EvaluationExplained(w: Case, segs: Segments, dts: seq<real>, pack: real, steps: nat)
    requires w.c.Valid() && AllValid(segs) && AllPositive(dts)
    ensures Explained(w, segs, dts, pack, steps, Evaluate(w, segs, dts, pack, steps))
    decreases |dts|
  {
    if dts == [] {
      EndsAtOnce(w, segs, pack, steps);
    } else {
      var next := AdvanceAll(w, segs, dts[0]);
      match StateFault(w, next, 0)
      case Some(f) =>
        StopsHere(w, segs, dts, pack, steps, f);
      case None =>
        var p := PackVoltage(w, next, |next|);
        EvaluationExplained(w, next, dts[1..], p, steps + 1);
        GoesOn(w, segs, dts, pack, steps, Evaluate(w, next, dts[1..], p, steps + 1));
    }
  }

  /** Feasible means that every segment is within every limit after every step. */
  lemma FeasibleIffAlwaysWithin(w: Case, segs: Segments, dts: seq<real>, pack: real, steps: nat)
    requires w.c.Valid() && AllValid(segs) && AllPositive(dts)
    ensures Evaluate(w, segs, dts, pack, steps).feasible <==> WithinUpTo(w, segs, dts, |dts|)
  {
    EvaluationExplained(w, segs, dts, pack, steps);
    var e := Evaluate(w, segs, dts, pack, steps);
    var n: nat :| e.steps == steps + n && Ended(w, segs, dts, pack, n, e);
    if n < |dts| {
      assert !AllWithin(w, StateAt(w, segs, dts, n + 1));
    }
  }
}
