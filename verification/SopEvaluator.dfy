/** The evaluation loop of the State-of-Power reference solver (evaluate_current). */
module SopEvaluator {
  import opened Options
  import opened Elementary
  import opened SopSchedule
  import opened SopModel
  import Thermal = SopThermal

  datatype Data = Data(uncertainty: real, ambient: real, segments: Segments)

  function Max(a: real, b: real): real { if b > a then b else a }

  /** The cell current that a requested pack current is checked at: pushed outwards by the uncertainty. */
  function CellCurrent(data: Data, c: Config, current: real, discharge: bool): real
    requires c.Valid()
  {
    var uncertainty := Max(data.uncertainty, c.currentFloor);
    (if discharge then current + uncertainty else current - uncertainty) / c.parallelCells
  }

  function CaseOf(m: Functions, data: Data, c: Config, current: real, discharge: bool): Case
    requires c.Valid()
  {
    Case(m, c, data.ambient, CellCurrent(data, c, current, discharge), discharge)
  }

  function Steps0(c: Config, horizon: real): (dts: seq<real>)
    requires c.Valid()
    ensures AllPositive(dts)
  {
    SchedulePositive(c.steps, 0.0, horizon);
    Schedule(c.steps, 0.0, horizon)
  }

  lemma {:induction false} SchedulePositive(s: Steps, elapsed: real, horizon: real)
    requires s.Valid()
    ensures AllPositive(Schedule(s, elapsed, horizon))
    decreases StepsLeft(s, elapsed, horizon)
  {
    if elapsed < horizon - TOLERANCE {
      StepMakesProgress(s, elapsed, horizon);
      SchedulePositive(s, elapsed + StepSize(s, elapsed, horizon), horizon);
    }
  }

  function EvaluateAt(m: Functions, data: Data, c: Config, current: real, discharge: bool, horizon: real): Evaluation
    requires c.Valid() && AllValid(data.segments)
  {
    Evaluate(CaseOf(m, data, c, current, discharge), data.segments, Steps0(c, horizon), 0.0, 0)
  }

  method UpdateSegment(w: Case, from: Segment, dt: real) returns (s: Segment)
    requires w.c.Valid() && from.Valid() && dt > 0.0
    ensures s == Advance(w, from, dt)
  {
    s := from;
    var a1 := Decay(w.m, dt, s.tau1);
    var a2 := Decay(w.m, dt, SecondTau(w.c));
    s := s.(vp1 := Relaxed(a1, s.vp1, s.r1, w.x));
    s := s.(vp2 := Relaxed(a2, s.vp2, w.c.r2, w.x));
    s := s.(soc := SocAfter(s.soc, w.x, dt, s.capacity));
    var heat := Heat(w.x, s.r0 + s.r1 + w.c.r2);
    var nodes := Thermal.Step(RatesOf(w.c), Thermal.Nodes(s.core, s.surface), heat, w.ambient, dt);
    s := s.(core := nodes.core, surface := nodes.surface);
  }

  /** The checks of one advanced segment, and its cell loop, which adds up the voltages until one breaks its limit. */
  method CheckSegment(w: Case, s: Segment, i: nat, pack: real) returns (fault: Option<Fault>, total: real)
    ensures fault == FaultOf(w, s, i)
    ensures fault.None? ==> total == pack + SegmentVoltage(w, s, |s.bias|)
  {
    total := pack;
    var broken := SegmentFault(w, s);
    if broken.Some? {
      return Some(Fault(broken.value, i, UNLIMITED)), total;
    }
    var base := BaseVoltage(w, s);
    var k := 0;
    while k < |s.bias|
      invariant 0 <= k <= |s.bias| && total == pack + SegmentVoltage(w, s, k)
      invariant FirstBadCell(w, s, 0) == FirstBadCell(w, s, k)
    {
      var voltage := base + s.bias[k];
      total := total + voltage;
      if w.discharge && voltage - s.margin < w.c.cellUv {
        return Some(Fault(CellUv, i, k)), total;
      }
      if !w.discharge && voltage + s.margin > w.c.cellOv {
        return Some(Fault(CellOv, i, k)), total;
      }
      k := k + 1;
    }
    fault := None;
  }

  /** The segments in the middle of a step, the first i already advanced in place. */
  ghost predicate Partly(before: Segments, next: Segments, i: nat, state: Segments) {
    && |before| == |next| == |state| && i <= |state|
    && forall j | 0 <= j < |state| :: state[j] == if j < i then next[j] else before[j]
  }

  method AdvanceAt(w: Case, state: Segments, i: nat, dt: real, ghost before: Segments, ghost next: Segments)
    returns (after: Segments)
    requires w.c.Valid() && AllValid(before) && dt > 0.0 && next == AdvanceAll(w, before, dt)
    requires i < |before| && Partly(before, next, i, state)
    ensures Partly(before, next, i + 1, after) && after[i] == next[i]
  {
    var s := UpdateSegment(w, state[i], dt);
    after := state[i := s];
  }

  /** The segment loop of one step: advances each segment in place and checks it, and stops at the first fault. */
  method StepSegments(w: Case, before: Segments, dt: real) returns (state: Segments, fault: Option<Fault>, pack: real)
    requires w.c.Valid() && AllValid(before) && dt > 0.0
    ensures fault == StateFault(w, AdvanceAll(w, before, dt), 0)
    ensures fault.None? ==> state == AdvanceAll(w, before, dt) && pack == PackVoltage(w, state, |state|)
  {
    ghost var next := AdvanceAll(w, before, dt);
    state, pack, fault := before, 0.0, None;
    for i := 0 to |before|
      invariant Partly(before, next, i, state) && fault.None?
      invariant pack == PackVoltage(w, next, i) && StateFault(w, next, 0) == StateFault(w, next, i)
    {
      state := AdvanceAt(w, state, i, dt, before, next);
      fault, pack := CheckSegment(w, state[i], i, pack);
      if fault.Some? {
        return;
      }
    }
    assert state == next;
  }

  method EvaluateCurrent(m: Functions, data: Data, c: Config, current: real, discharge: bool, horizon: real)
    returns (e: Evaluation)
    requires c.Valid() && AllValid(data.segments)
    ensures e == EvaluateAt(m, data, c, current, discharge, horizon)
  {
    var w := CaseOf(m, data, c, current, discharge);
    var state, elapsed, pack, steps := data.segments, 0.0, 0.0, 0;
    SchedulePositive(c.steps, 0.0, horizon);
    while elapsed < horizon - TOLERANCE
      invariant AllValid(state) && AllPositive(Schedule(c.steps, elapsed, horizon))
      invariant EvaluateAt(m, data, c, current, discharge, horizon)
             == Evaluate(w, state, Schedule(c.steps, elapsed, horizon), pack, steps)
      decreases StepsLeft(c.steps, elapsed, horizon)
    {
      StepMakesProgress(c.steps, elapsed, horizon);
      var dt := StepSize(c.steps, elapsed, horizon);
      SchedulePositive(c.steps, elapsed + dt, horizon);
      assert Schedule(c.steps, elapsed, horizon)[1..] == Schedule(c.steps, elapsed + dt, horizon);
      var next, fault, total := StepSegments(w, state, dt);
      if fault.Some? {
        return Evaluation(false, fault.value.binding, fault.value.segment, fault.value.cell, pack, steps);
      }
      state, pack, steps, elapsed := next, total, steps + 1, elapsed + dt;
    }
    e := Evaluation(true, NoBinding, UNLIMITED, UNLIMITED, pack, steps);
  }
}
