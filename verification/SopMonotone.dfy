/** Feasibility is downward closed in the magnitude of the requested current: a weaker current keeps
    every segment between its idle and its stronger trajectory. */
module SopMonotone {
  import opened Reals
  import opened Elementary
  import opened SopSchedule
  import opened SopModel
  import opened SopEvaluator
  import Exact = SopExact
  import Thermal = SopThermal

  // ----- the order of segment states -----

  /** The resistances of a passive cell. */
  predicate Passive(s: Segment) { s.Valid() && s.r0 >= 0.0 && s.r1 >= 0.0 }

  /** The states differ in nothing but soc, polarisation and temperature. */
  predicate SameCell(s: Segment, t: Segment) {
    s.(soc := t.soc, vp1 := t.vp1, vp2 := t.vp2, core := t.core, surface := t.surface) == t
  }

  /** s is no more strained than t: no warmer, and no further along in the direction of the current. */
  predicate NoMoreStrained(s: Segment, t: Segment, discharge: bool) {
    && SameCell(s, t) && s.core <= t.core && s.surface <= t.surface
    && (if discharge then s.vp1 <= t.vp1 && s.vp2 <= t.vp2 && s.soc >= t.soc
        else s.vp1 >= t.vp1 && s.vp2 >= t.vp2 && s.soc <= t.soc)
  }

  /** w carries no more current than v, in the same direction and surroundings. */
  ghost predicate NoStronger(w: Case, v: Case) {
    && v == w.(x := v.x) && (if w.discharge then 0.0 <= w.x <= v.x else v.x <= w.x <= 0.0)
  }

  lemma RelaxedGrows(a: real, v: real, v': real, r: real, x: real, x': real)
    requires 0.0 <= a <= 1.0 && r >= 0.0 && v <= v' && x <= x'
    ensures Relaxed(a, v, r, x) <= Relaxed(a, v', r, x')
  {
    ScaleMonotone(v, v', a);
    ScaleMonotone(0.0, 1.0 - a, r);
    ScaleMonotone(x, x', r * (1.0 - a));
  }

  lemma DecayIsFraction(m: Functions, dt: real, tau: real)
    requires m.Valid() && dt >= 0.0 && tau > 0.0
    ensures 0.0 < Decay(m, dt, tau) <= 1.0
  {
    QuotientSign(-dt, tau);
    ExpPositive(m, -dt / tau);
    ExpZero(m);
    ExpMonotone(m, -dt / tau, 0.0);
  }

  lemma SocFalls(soc: real, soc': real, x: real, x': real, dt: real, capacity: real)
    requires soc' <= soc && x <= x' && dt > 0.0 && capacity > 0.0
    ensures SocAfter(soc', x', dt, capacity) <= SocAfter(soc, x, dt, capacity)
  {
    ScaleMonotone(x, x', dt);
    QuotientMonotone(x * dt, x' * dt, capacity);
  }

  lemma HeatGrows(x: real, x': real, resistance: real)
    requires resistance >= 0.0 && (0.0 <= x <= x' || x' <= x <= 0.0)
    ensures Heat(x, resistance) <= Heat(x', resistance)
  {
    SquareGrows(x, x');
    ScaleMonotone(x * x, x' * x', resistance);
  }

  lemma SquareGrows(x: real, x': real)
    requires 0.0 <= x <= x' || x' <= x <= 0.0
    ensures x * x <= x' * x'
  {
    if 0.0 <= x <= x' {
      ScaleMonotone(x, x', x);
      ScaleMonotone(x, x', x');
    } else {
      ScaleMonotone(-x, -x', -x);
      ScaleMonotone(-x, -x', -x');
      assert (-x) * (-x) == x * x && (-x') * (-x') == x' * x';
    }
  }

  lemma NodesKeepOrder(w: Case, v: Case, s: Segment, t: Segment, dt: real)
    requires w.c.Valid() && NoStronger(w, v) && NoMoreStrained(s, t, w.discharge) && Passive(s)
    requires dt > 0.0 && Thermal.Damped(RatesOf(w.c), dt)
    ensures Thermal.NoWarmer(NodesAfter(w, s, dt), NodesAfter(v, t, dt))
  {
    var resistance := s.r0 + s.r1 + w.c.r2;
    HeatGrows(w.x, v.x, resistance);
    Thermal.StepKeepsOrder(RatesOf(w.c), Thermal.Nodes(s.core, s.surface), Thermal.Nodes(t.core, t.surface),
                           Heat(w.x, resistance), Heat(v.x, resistance), w.ambient, dt);
  }

  lemma PolarisationKeepsOrder(w: Case, v: Case, s: Segment, t: Segment, dt: real)
    requires w.m.Valid() && w.c.Valid() && NoStronger(w, v) && NoMoreStrained(s, t, w.discharge) && Passive(s)
    requires dt > 0.0
    ensures var s', t' := Advance(w, s, dt), Advance(v, t, dt);
      if w.discharge then s'.vp1 <= t'.vp1 && s'.vp2 <= t'.vp2 else s'.vp1 >= t'.vp1 && s'.vp2 >= t'.vp2
  {
    DecayIsFraction(w.m, dt, s.tau1);
    DecayIsFraction(w.m, dt, SecondTau(w.c));
    var a1, a2 := Decay(w.m, dt, s.tau1), Decay(w.m, dt, SecondTau(w.c));
    if w.discharge {
      RelaxedGrows(a1, s.vp1, t.vp1, s.r1, w.x, v.x);
      RelaxedGrows(a2, s.vp2, t.vp2, w.c.r2, w.x, v.x);
    } else {
      RelaxedGrows(a1, t.vp1, s.vp1, s.r1, v.x, w.x);
      RelaxedGrows(a2, t.vp2, s.vp2, w.c.r2, v.x, w.x);
    }
  }

  lemma AdvanceKeepsOrder(w: Case, v: Case, s: Segment, t: Segment, dt: real)
    requires w.m.Valid() && w.c.Valid() && NoStronger(w, v) && NoMoreStrained(s, t, w.discharge) && Passive(s)
    requires dt > 0.0 && Thermal.Damped(RatesOf(w.c), dt)
    ensures NoMoreStrained(Advance(w, s, dt), Advance(v, t, dt), w.discharge)
  {
    NodesKeepOrder(w, v, s, t, dt);
    PolarisationKeepsOrder(w, v, s, t, dt);
    if w.discharge { SocFalls(s.soc, t.soc, w.x, v.x, dt, s.capacity); }
    else { SocFalls(t.soc, s.soc, v.x, w.x, dt, s.capacity); }
  }

  // ----- the limits -----

  /** The magnitude of the cell current in its own direction. */
  function Load(w: Case): real { if w.discharge then w.x else -w.x }

  /** The part of the temperature coefficient by which warming moves the voltage away from the limit of this
      direction, and so favours the stronger current. */
  function Adverse(s: Segment, discharge: bool): real { Max(0.0, if discharge then s.ocvPerDegree else -s.ocvPerDegree) }

  /** What v's greater warmth gives back in voltage is no more than its greater current costs in r0. */
  predicate Steady(w: Case, v: Case, s: Segment, t: Segment) {
    s.ocvPerSoc >= 0.0 && Times(Adverse(s, w.discharge), t.core - s.core) <= Times(s.r0, Load(v) - Load(w))
  }

  lemma CoefficientWithin(g: real, adverse: real, rise: real)
    requires g <= adverse && rise >= 0.0
    ensures Times(g, rise) <= Times(adverse, rise)
  {
    ScaleMonotone(g, adverse, rise);
  }

  lemma TimesMinus(a: real, b: real, c: real)
    ensures Times(a, b - c) == Times(a, b) - Times(a, c) && Times(-a, b) == -Times(a, b)
  {
  }

  lemma OpenCircuitDifference(s: Segment, t: Segment)
    requires SameCell(s, t)
    ensures OpenCircuit(t) - OpenCircuit(s) == Times(s.ocvPerSoc, t.soc - s.soc) + Times(s.ocvPerDegree, t.core - s.core)
  {
    TimesMinus(s.ocvPerSoc, t.soc - s.soc0, s.soc - s.soc0);
    TimesMinus(s.ocvPerDegree, t.core - s.core0, s.core - s.core0);
    assert (t.soc - s.soc0) - (s.soc - s.soc0) == t.soc - s.soc;
    assert (t.core - s.core0) - (s.core - s.core0) == t.core - s.core;
  }

  lemma VoltageKeepsOrder(w: Case, v: Case, s: Segment, t: Segment)
    requires NoStronger(w, v) && NoMoreStrained(s, t, w.discharge) && Steady(w, v, s, t)
    ensures if w.discharge then BaseVoltage(w, s) >= BaseVoltage(v, t) else BaseVoltage(w, s) <= BaseVoltage(v, t)
  {
    var g, rise := s.ocvPerDegree, t.core - s.core;
    OpenCircuitDifference(s, t);
    TimesMinus(s.r0, v.x, w.x);
    if w.discharge {
      CoefficientWithin(g, Adverse(s, true), rise);
      ScaleMonotone(0.0, s.soc - t.soc, s.ocvPerSoc);
      assert Times(s.ocvPerSoc, t.soc - s.soc) == -Times(s.ocvPerSoc, s.soc - t.soc);
    } else {
      CoefficientWithin(-g, Adverse(s, false), rise);
      TimesMinus(g, rise, 0.0);
      TimesMinus(s.r0, -v.x, -w.x);
      TimesMinus(s.r0, w.x, v.x);
      assert -v.x - -w.x == w.x - v.x;
      ScaleMonotone(0.0, t.soc - s.soc, s.ocvPerSoc);
    }
  }

  /** Between an idle state that is warm enough and a strained state within every limit, every limit holds. */
  lemma WithinBetween(w: Case, v: Case, idle: Segment, s: Segment, t: Segment)
    requires NoStronger(w, v) && Steady(w, v, s, t)
    requires NoMoreStrained(idle, s, w.discharge) && NoMoreStrained(s, t, w.discharge)
    requires Within(v, t) && (!w.discharge ==> idle.surface - w.c.TemperatureMargin() >= w.c.chargeTempMin)
    ensures Within(w, s)
  {
    VoltageKeepsOrder(w, v, s, t);
    forall j | 0 <= j < |s.bias| ensures !CellBreaks(w, s, BaseVoltage(w, s) + s.bias[j]) {
      assert !CellBreaks(v, t, BaseVoltage(v, t) + t.bias[j]);
    }
  }

  // ----- whole trajectories -----

  ghost predicate AllNoMoreStrained(segs: Segments, other: Segments, discharge: bool) {
    |segs| == |other| && forall i | 0 <= i < |segs| :: NoMoreStrained(segs[i], other[i], discharge)
  }

  ghost predicate AllPassive(segs: Segments) {
    forall i | 0 <= i < |segs| :: Passive(segs[i])
  }

  ghost predicate AllDamped(c: Config, dts: seq<real>)
    requires c.Valid()
  {
    forall k | 0 <= k < |dts| :: dts[k] > 0.0 && Thermal.Damped(RatesOf(c), dts[k])
  }

  lemma StepKeepsOrder(w: Case, v: Case, segs: Segments, other: Segments, dt: real)
    requires w.m.Valid() && w.c.Valid() && NoStronger(w, v) && AllPassive(segs)
    requires AllNoMoreStrained(segs, other, w.discharge) && dt > 0.0 && Thermal.Damped(RatesOf(w.c), dt)
    ensures AllValid(segs) && AllValid(other)
    ensures AllNoMoreStrained(AdvanceAll(w, segs, dt), AdvanceAll(v, other, dt), w.discharge)
    ensures AllPassive(AdvanceAll(w, segs, dt))
  {
    forall i | 0 <= i < |segs| ensures other[i].Valid() { assert NoMoreStrained(segs[i], other[i], w.discharge); }
    var a, b := AdvanceAll(w, segs, dt), AdvanceAll(v, other, dt);
    forall i | 0 <= i < |segs| ensures NoMoreStrained(a[i], b[i], w.discharge) && Passive(a[i]) {
      AdvanceKeepsOrder(w, v, segs[i], other[i], dt);
    }
  }

  /** At every step the weaker run is no more strained than the stronger one. */
  lemma {:induction false} RunKeepsOrder(w: Case, v: Case, segs: Segments, other: Segments, dts: seq<real>, k: nat)
    requires w.m.Valid() && w.c.Valid() && NoStronger(w, v) && AllPassive(segs)
    requires AllNoMoreStrained(segs, other, w.discharge) && AllDamped(w.c, dts) && k <= |dts|
    ensures AllValid(segs) && AllValid(other)
    ensures AllNoMoreStrained(StateAt(w, segs, dts, k), StateAt(v, other, dts, k), w.discharge)
    ensures AllPassive(StateAt(w, segs, dts, k))
    decreases k
  {
    forall i | 0 <= i < |segs| ensures other[i].Valid() { assert NoMoreStrained(segs[i], other[i], w.discharge); }
    if k > 0 {
      StepKeepsOrder(w, v, segs, other, dts[0]);
      forall j | 0 <= j < |dts[1..]| ensures dts[1..][j] == dts[j + 1] { }
      RunKeepsOrder(w, v, AdvanceAll(w, segs, dts[0]), AdvanceAll(v, other, dts[0]), dts[1..], k - 1);
    }
  }

  lemma SameStart(segs: Segments, discharge: bool)
    ensures AllNoMoreStrained(segs, segs, discharge)
  {
  }

  // ----- how much warmer the stronger run gets -----

  function Resistance(c: Config, s: Segment): real { s.r0 + s.r1 + c.r2 }

  /** What the heat by which v exceeds w warms the core in this time, if all of it stays there. */
  function ExtraWarmth(w: Case, v: Case, s: Segment, time: real): real
    requires w.c.Valid()
  {
    Thermal.Warmth(RatesOf(w.c), Heat(v.x, Resistance(w.c, s)) - Heat(w.x, Resistance(w.c, s)), time)
  }

  predicate Apart(s: Segment, t: Segment, gap: real) {
    Thermal.Apart(Thermal.Nodes(s.core, s.surface), Thermal.Nodes(t.core, t.surface), gap)
  }

  lemma ExtraWarmthAdds(w: Case, v: Case, s: Segment, t: real, u: real)
    requires w.c.Valid() && NoStronger(w, v) && Passive(s) && t >= 0.0
    ensures ExtraWarmth(w, v, s, t) + ExtraWarmth(w, v, s, u) == ExtraWarmth(w, v, s, t + u)
    ensures ExtraWarmth(w, v, s, t) >= 0.0
  {
    var extra := Heat(v.x, Resistance(w.c, s)) - Heat(w.x, Resistance(w.c, s));
    HeatGrows(w.x, v.x, Resistance(w.c, s));
    Thermal.WarmthAdds(RatesOf(w.c), extra, extra, t, u);
    ScaleMonotone(0.0, extra, t);
    QuotientSign(t * extra, w.c.coreCapacity);
  }

  lemma AdvanceWidens(w: Case, v: Case, s: Segment, t: Segment, dt: real, gap: real)
    requires w.c.Valid() && NoStronger(w, v) && NoMoreStrained(s, t, w.discharge) && Passive(s)
    requires dt > 0.0 && Thermal.Damped(RatesOf(w.c), dt) && gap >= 0.0 && Apart(s, t, gap)
    ensures Apart(Advance(w, s, dt), Advance(v, t, dt), gap + ExtraWarmth(w, v, s, dt))
  {
    HeatGrows(w.x, v.x, Resistance(w.c, s));
    Thermal.StepWidens(RatesOf(w.c), Thermal.Nodes(s.core, s.surface), Thermal.Nodes(t.core, t.surface),
                       Heat(w.x, Resistance(w.c, s)), Heat(v.x, Resistance(w.c, s)), w.ambient, dt, gap);
  }

  lemma ElapsedNonNegative(dts: seq<real>, k: nat)
    requires AllPositive(dts) && k <= |dts|
    ensures 0.0 <= Exact.Elapsed(dts, k) <= Exact.Elapsed(dts, |dts|)
    decreases |dts|
  {
    if dts != [] {
      ElapsedNonNegative(dts[1..], if k == 0 then 0 else k - 1);
    }
  }

  /** After k steps the stronger run is warmer by no more than its extra heat over the elapsed time. */
  lemma {:induction false} RunWidens(w: Case, v: Case, segs: Segments, other: Segments, dts: seq<real>, k: nat, i: nat, gap: real)
    requires w.m.Valid() && w.c.Valid() && NoStronger(w, v) && AllPassive(segs) && AllDamped(w.c, dts)
    requires AllNoMoreStrained(segs, other, w.discharge) && k <= |dts| && i < |segs| && gap >= 0.0 && Apart(segs[i], other[i], gap)
    ensures AllValid(segs) && AllValid(other) && AllPositive(dts)
    ensures Apart(StateAt(w, segs, dts, k)[i], StateAt(v, other, dts, k)[i],
                  gap + ExtraWarmth(w, v, segs[i], Exact.Elapsed(dts, k)))
    decreases k
  {
    forall i | 0 <= i < |segs| ensures other[i].Valid() { assert NoMoreStrained(segs[i], other[i], w.discharge); }
    ExtraWarmthAdds(w, v, segs[i], 0.0, 0.0);
    if k > 0 {
      StepKeepsOrder(w, v, segs, other, dts[0]);
      AdvanceWidens(w, v, segs[i], other[i], dts[0], gap);
      forall j | 0 <= j < |dts[1..]| ensures dts[1..][j] == dts[j + 1] { }
      ExtraWarmthAdds(w, v, segs[i], dts[0], Exact.Elapsed(dts[1..], k - 1));
      RunWidens(w, v, AdvanceAll(w, segs, dts[0]), AdvanceAll(v, other, dts[0]), dts[1..], k - 1, i,
                gap + ExtraWarmth(w, v, segs[i], dts[0]));
    }
  }

  // ----- what a segment tolerates -----

  /** How far two loads of this sum warm the core apart over this time, per ampere of their difference. */
  function WarmthPerAmpere(c: Config, s: Segment, loads: real, time: real): real
    requires c.Valid()
  {
    loads * Resistance(c, s) * time / c.coreCapacity
  }

  /** Voltage falls with the load, for loads of this sum: the open-circuit voltage grows with the charge, and where it
      answers to warmth in the wrong direction, r0 outweighs that over this time. */
  predicate Tolerates(c: Config, s: Segment, discharge: bool, loads: real, time: real)
    requires c.Valid()
  {
    && Passive(s) && s.ocvPerSoc >= 0.0
    && Times(Adverse(s, discharge), WarmthPerAmpere(c, s, loads, time)) <= s.r0
  }

  lemma ToleratesLess(c: Config, s: Segment, discharge: bool, loads: real, loads': real, time: real, time': real)
    requires c.Valid() && Tolerates(c, s, discharge, loads', time') && 0.0 <= loads <= loads' && 0.0 <= time <= time'
    ensures Tolerates(c, s, discharge, loads, time)
  {
    var r := Resistance(c, s);
    ScaleMonotone(loads, loads', r);
    ScaleMonotone(loads * r, loads' * r, time);
    ScaleMonotone(0.0, loads', r);
    ScaleMonotone(time, time', loads' * r);
    QuotientMonotone(loads * r * time, loads' * r * time', c.coreCapacity);
    ScaleMonotone(WarmthPerAmpere(c, s, loads, time), WarmthPerAmpere(c, s, loads', time'), Adverse(s, discharge));
  }

  lemma ExtraWarmthPerAmpere(w: Case, v: Case, s: Segment, time: real)
    requires w.c.Valid() && NoStronger(w, v)
    ensures ExtraWarmth(w, v, s, time) == Times(Load(v) - Load(w), WarmthPerAmpere(w.c, s, Load(v) + Load(w), time))
  {
    var a, b, r, c := Load(v), Load(w), Resistance(w.c, s), w.c.coreCapacity;
    assert v.x * v.x == a * a && w.x * w.x == b * b;
    assert a * a * r - b * b * r == (a - b) * ((a + b) * r);
    assert time * ((a - b) * ((a + b) * r)) == (a - b) * ((a + b) * r * time);
    QuotientOfProduct(a - b, (a + b) * r * time, c);
  }

  lemma QuotientOfProduct(a: real, b: real, c: real)
    requires c > 0.0
    ensures a * b / c == a * (b / c)
  {
    var q := b / c;
    assert q * c == b;
    assert a * b == (a * q) * c;
  }

  lemma SteadyWhenTolerated(w: Case, v: Case, s: Segment, t: Segment, time: real)
    requires w.c.Valid() && NoStronger(w, v) && Apart(s, t, ExtraWarmth(w, v, s, time))
    requires Tolerates(w.c, s, w.discharge, Load(v) + Load(w), time)
    ensures Steady(w, v, s, t)
  {
    var adverse, more, per := Adverse(s, w.discharge), Load(v) - Load(w), WarmthPerAmpere(w.c, s, Load(v) + Load(w), time);
    ExtraWarmthPerAmpere(w, v, s, time);
    Outweighs(adverse, more, per, t.core - s.core, s.r0);
  }

  lemma Outweighs(adverse: real, more: real, per: real, rise: real, r0: real)
    requires adverse >= 0.0 && more >= 0.0 && rise <= Times(more, per) && Times(adverse, per) <= r0
    ensures Times(adverse, rise) <= Times(r0, more)
  {
    ScaleMonotone(rise, Times(more, per), adverse);
    ScaleMonotone(Times(adverse, per), r0, more);
    assert adverse * (more * per) == (adverse * per) * more;
  }

  ghost predicate AllTolerate(c: Config, segs: Segments, discharge: bool, loads: real, time: real)
    requires c.Valid()
  {
    forall i | 0 <= i < |segs| :: Tolerates(c, segs[i], discharge, loads, time)
  }

  /** Constants of a segment outlast every step. */
  lemma {:induction false} ConstantsLast(w: Case, segs: Segments, dts: seq<real>, k: nat, i: nat)
    requires w.c.Valid() && AllValid(segs) && AllPositive(dts) && k <= |dts| && i < |segs|
    ensures SameCell(StateAt(w, segs, dts, k)[i], segs[i])
    decreases k
  {
    if k > 0 { ConstantsLast(w, AdvanceAll(w, segs, dts[0]), dts[1..], k - 1, i); }
  }

  lemma SteadyLater(w: Case, v: Case, s0: Segment, s: Segment, t: Segment, elapsed: real, time: real)
    requires w.c.Valid() && NoStronger(w, v) && SameCell(s, s0) && Apart(s, t, 0.0 + ExtraWarmth(w, v, s0, elapsed))
    requires Tolerates(w.c, s0, w.discharge, Load(v) + Load(w), time) && 0.0 <= elapsed <= time
    ensures Steady(w, v, s, t)
  {
    ToleratesLess(w.c, s0, w.discharge, Load(v) + Load(w), Load(v) + Load(w), elapsed, time);
    assert Tolerates(w.c, s, w.discharge, Load(v) + Load(w), elapsed);
    SteadyWhenTolerated(w, v, s, t, elapsed);
  }

  lemma RunIsSteady(w: Case, v: Case, segs: Segments, dts: seq<real>, k: nat, i: nat, time: real)
    requires w.m.Valid() && w.c.Valid() && NoStronger(w, v) && AllPassive(segs) && AllDamped(w.c, dts)
    requires k <= |dts| && i < |segs| && Tolerates(w.c, segs[i], w.discharge, Load(v) + Load(w), time)
    requires Exact.Elapsed(dts, |dts|) <= time
    ensures AllValid(segs) && AllPositive(dts)
    ensures Steady(w, v, StateAt(w, segs, dts, k)[i], StateAt(v, segs, dts, k)[i])
  {
    SameStart(segs, w.discharge);
    RunWidens(w, v, segs, segs, dts, k, i, 0.0);
    ElapsedNonNegative(dts, k);
    ConstantsLast(w, segs, dts, k, i);
    SteadyLater(w, v, segs[i], StateAt(w, segs, dts, k)[i], StateAt(v, segs, dts, k)[i], Exact.Elapsed(dts, k), time);
  }

  /** If a stronger run stays within the limits, and for charge the idle run too, so does every run between them. */
  lemma WithinIsDownwardClosed(idle: Case, w: Case, v: Case, segs: Segments, dts: seq<real>, time: real)
    requires w.m.Valid() && w.c.Valid() && NoStronger(idle, w) && NoStronger(w, v) && AllDamped(w.c, dts)
    requires AllTolerate(w.c, segs, w.discharge, Load(v) + Load(w), time) && Exact.Elapsed(dts, |dts|) <= time
    ensures AllValid(segs) && AllPositive(dts)
    ensures (w.discharge || WithinUpTo(idle, segs, dts, |dts|)) && WithinUpTo(v, segs, dts, |dts|)
        ==> WithinUpTo(w, segs, dts, |dts|)
  {
    SameStart(segs, w.discharge);
    if (w.discharge || WithinUpTo(idle, segs, dts, |dts|)) && WithinUpTo(v, segs, dts, |dts|) {
      forall k | 1 <= k <= |dts| ensures AllWithin(w, StateAt(w, segs, dts, k)) {
        RunKeepsOrder(idle, w, segs, segs, dts, k);
        RunKeepsOrder(w, v, segs, segs, dts, k);
        forall i | 0 <= i < |segs| ensures Steady(w, v, StateAt(w, segs, dts, k)[i], StateAt(v, segs, dts, k)[i]) {
          RunIsSteady(w, v, segs, dts, k, i, time);
        }
        StateWithinBetween(idle, w, v, StateAt(idle, segs, dts, k), StateAt(w, segs, dts, k), StateAt(v, segs, dts, k));
      }
    }
  }

  lemma StateWithinBetween(idle: Case, w: Case, v: Case, a: Segments, b: Segments, c: Segments)
    requires NoStronger(idle, w) && NoStronger(w, v)
    requires AllNoMoreStrained(a, b, w.discharge) && AllNoMoreStrained(b, c, w.discharge)
    requires forall i | 0 <= i < |b| :: Steady(w, v, b[i], c[i])
    requires (w.discharge || AllWithin(idle, a)) && AllWithin(v, c)
    ensures AllWithin(w, b)
  {
    forall i | 0 <= i < |b| ensures Within(w, b[i]) {
      assert Within(v, c[i]) && (w.discharge || Within(idle, a[i]));
      WithinBetween(w, v, a[i], b[i], c[i]);
    }
  }

  // ----- requested currents -----

  /** What the closure up to a magnitude rests on over a horizon: a damped thermal step, and segments that tolerate
      twice the load that this magnitude is checked at. */
  ghost predicate Tolerant(m: Functions, data: Data, c: Config, discharge: bool, top: real, horizon: real) {
    && m.Valid() && c.Valid() && c.currentFloor >= 0.0 && Thermal.Damped(RatesOf(c), c.steps.Greatest())
    && AllTolerate(c, data.segments, discharge, 2.0 * Load(CaseOf(m, data, c, Signed(top, discharge), discharge)), horizon)
  }

  function Signed(magnitude: real, discharge: bool): real { if discharge then magnitude else -magnitude }

  lemma RequestsAreOrdered(m: Functions, data: Data, c: Config, small: real, large: real, discharge: bool)
    requires c.Valid() && c.currentFloor >= 0.0 && 0.0 <= small <= large
    ensures NoStronger(CaseOf(m, data, c, Signed(small, discharge), discharge), CaseOf(m, data, c, Signed(large, discharge), discharge))
  {
    var u := Max(data.uncertainty, c.currentFloor);
    if discharge {
      QuotientMonotone(0.0, small + u, c.parallelCells);
      QuotientMonotone(small + u, large + u, c.parallelCells);
    } else {
      QuotientMonotone(-small - u, 0.0, c.parallelCells);
      QuotientMonotone(-large - u, -small - u, c.parallelCells);
    }
  }

  lemma ScheduleIsDamped(c: Config, horizon: real)
    requires c.Valid() && Thermal.Damped(RatesOf(c), c.steps.Greatest())
    ensures AllDamped(c, Steps0(c, horizon))
  {
    var dts := Steps0(c, horizon);
    if 0.0 <= horizon {
      ScheduleReachesHorizon(c.steps, 0.0, horizon);
    }
    forall k | 0 <= k < |dts| ensures dts[k] > 0.0 && Thermal.Damped(RatesOf(c), dts[k]) {
      Thermal.ShorterIsDamped(RatesOf(c), dts[k], c.steps.Greatest());
    }
  }

  lemma ScheduleWithinHorizon(c: Config, horizon: real)
    requires c.Valid()
    ensures Steps0(c, horizon) == [] || Exact.Elapsed(Steps0(c, horizon), |Steps0(c, horizon)|) <= horizon
  {
    var dts := Steps0(c, horizon);
    if 0.0 <= horizon {
      ScheduleReachesHorizon(c.steps, 0.0, horizon);
      Exact.ElapsedIsTime(0.0, dts, |dts|);
    }
  }

  lemma TolerantBelow(m: Functions, data: Data, c: Config, small: real, large: real, top: real, discharge: bool, horizon: real)
    requires Tolerant(m, data, c, discharge, top, horizon) && 0.0 <= small <= large <= top && horizon >= 0.0
    ensures var w, v := CaseOf(m, data, c, Signed(small, discharge), discharge), CaseOf(m, data, c, Signed(large, discharge), discharge);
      AllTolerate(c, data.segments, discharge, Load(v) + Load(w), horizon)
  {
    var w, v := CaseOf(m, data, c, Signed(small, discharge), discharge), CaseOf(m, data, c, Signed(large, discharge), discharge);
    RequestsAreOrdered(m, data, c, small, large, discharge);
    RequestsAreOrdered(m, data, c, large, top, discharge);
    forall i | 0 <= i < |data.segments| ensures Tolerates(c, data.segments[i], discharge, Load(v) + Load(w), horizon) {
      ToleratesLess(c, data.segments[i], discharge, Load(v) + Load(w),
                    2.0 * Load(CaseOf(m, data, c, Signed(top, discharge), discharge)), horizon, horizon);
    }
  }

  /** A current is feasible whenever a larger one in the same direction is; for charge, once zero current is. */
  lemma FeasibleIsDownwardClosed(m: Functions, data: Data, c: Config, small: real, large: real, top: real, discharge: bool, horizon: real)
    requires Tolerant(m, data, c, discharge, top, horizon) && 0.0 <= small <= large <= top
    ensures AllValid(data.segments)
    ensures (discharge || EvaluateAt(m, data, c, 0.0, discharge, horizon).feasible)
         && EvaluateAt(m, data, c, Signed(large, discharge), discharge, horizon).feasible
        ==> EvaluateAt(m, data, c, Signed(small, discharge), discharge, horizon).feasible
  {
    var dts := Steps0(c, horizon);
    var idle, w, v := CaseOf(m, data, c, 0.0, discharge), CaseOf(m, data, c, Signed(small, discharge), discharge),
                      CaseOf(m, data, c, Signed(large, discharge), discharge);
    if dts != [] {
      assert Signed(0.0, discharge) == 0.0;
      RequestsAreOrdered(m, data, c, 0.0, small, discharge);
      RequestsAreOrdered(m, data, c, small, large, discharge);
      TolerantBelow(m, data, c, small, large, top, discharge, horizon);
      ScheduleIsDamped(c, horizon);
      ScheduleWithinHorizon(c, horizon);
      WithinIsDownwardClosed(idle, w, v, data.segments, dts, horizon);
      FeasibleIffAlwaysWithin(idle, data.segments, dts, 0.0, 0);
      FeasibleIffAlwaysWithin(w, data.segments, dts, 0.0, 0);
      FeasibleIffAlwaysWithin(v, data.segments, dts, 0.0, 0);
    }
  }

  // ----- horizons -----

  /** A current feasible over a longer horizon is feasible over a shorter one on the step grid. */
  lemma LongerFeasibleIsShorterFeasible(m: Functions, data: Data, c: Config, current: real, discharge: bool, shorter: real, longer: real)
    requires c.Valid() && AllValid(data.segments) && shorter < longer && Aligned(c.steps, 0.0, shorter)
    ensures EvaluateAt(m, data, c, current, discharge, longer).feasible ==> EvaluateAt(m, data, c, current, discharge, shorter).feasible
  {
    var w, a, b := CaseOf(m, data, c, current, discharge), Steps0(c, shorter), Steps0(c, longer);
    PrefixIffAligned(c.steps, 0.0, shorter, longer);
    FeasibleIffAlwaysWithin(w, data.segments, a, 0.0, 0);
    FeasibleIffAlwaysWithin(w, data.segments, b, 0.0, 0);
    if WithinUpTo(w, data.segments, b, |b|) {
      forall k | 1 <= k <= |a| ensures AllWithin(w, StateAt(w, data.segments, a, k)) {
        SamePrefix(w, data.segments, a, b, k);
        assert AllWithin(w, StateAt(w, data.segments, b, k));
      }
    }
  }

  lemma {:induction false} SamePrefix(w: Case, segs: Segments, a: seq<real>, b: seq<real>, k: nat)
    requires w.c.Valid() && AllValid(segs) && AllPositive(a) && AllPositive(b) && a <= b && k <= |a|
    ensures StateAt(w, segs, a, k) == StateAt(w, segs, b, k)
    decreases k
  {
    if k > 0 {
      assert a[1..] <= b[1..];
      SamePrefix(w, AdvanceAll(w, segs, a[0]), a[1..], b[1..], k - 1);
    }
  }
}
