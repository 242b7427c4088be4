/** The published State-of-Power envelope: a search for every horizon and direction, then the clamp that
    keeps limits from growing with the horizon (solve). */
module SopEnvelope {
  import opened Bisection
  import opened Elementary
  import opened SopModel
  import opened SopEvaluator
  import opened SopMonotone
  import opened SopSolver
  import SopSchedule

  /** One published current, signed by its direction, with its power and what limits it. */
  datatype Entry = Entry(current: real, power: real, binding: Binding)

  /** One horizon of one direction: the evaluation of any signed current, the path limit, and what the search found. */
  datatype Horizon = Horizon(e: real -> Evaluation, cap: real, searched: Entry)

  function Abs(x: real): real { if x < 0.0 then -x else x }

  function Power(e: Evaluation, magnitude: real): real { Max(0.0, e.packVoltage * magnitude) }

  predicate Exceeds(own: real, previous: real, discharge: bool) {
    if discharge then own > previous else Abs(own) > Abs(previous)
  }

  function Magnitude(current: real, discharge: bool): real { if discharge then current else Abs(current) }

  function Clamp(h: Horizon, discharge: bool, previous: Entry): Entry {
    if Exceeds(h.searched.current, previous.current, discharge) then
      Entry(previous.current, Power(h.e(previous.current), Magnitude(previous.current, discharge)), HorizonEnvelope)
    else h.searched
  }

  /** The published entry of horizon i. */
  function Envelope(hs: seq<Horizon>, discharge: bool, i: nat): Entry
    requires i < |hs|
  {
    if i == 0 then hs[0].searched else Clamp(hs[i], discharge, Envelope(hs, discharge, i - 1))
  }

  // ----- what an envelope promises -----

  /** The entry's current lies in its direction within the cap, is feasible unless it is zero, and its power is
      that of an evaluation at this very current. */
  ghost predicate Delivers(h: Horizon, discharge: bool, r: Entry, magnitude: real) {
    && 0.0 <= magnitude <= h.cap && r.current == Signed(magnitude, discharge)
    && (magnitude > 0.0 ==> h.e(Signed(0.0, discharge)).feasible && h.e(r.current).feasible)
    && r.power == Power(h.e(r.current), magnitude)
  }

  ghost predicate Deliverable(h: Horizon, discharge: bool, r: Entry) {
    exists magnitude: real :: Delivers(h, discharge, r, magnitude)
  }

  /** Once zero is feasible, so is everything weaker than a feasible current within the cap. */
  ghost predicate Orderly(h: Horizon, discharge: bool) {
    forall x: real, y: real | 0.0 <= x <= y <= h.cap && h.e(Signed(0.0, discharge)).feasible && h.e(Signed(y, discharge)).feasible ::
      h.e(Signed(x, discharge)).feasible
  }

  ghost predicate AllSound(hs: seq<Horizon>, discharge: bool) {
    forall i | 0 <= i < |hs| :: Orderly(hs[i], discharge) && Deliverable(hs[i], discharge, hs[i].searched)
  }

  lemma MagnitudeOf(current: real, magnitude: real, discharge: bool)
    requires magnitude >= 0.0 && current == Signed(magnitude, discharge)
    ensures Magnitude(current, discharge) == magnitude
  {
  }

  lemma ClampIsDeliverable(h: Horizon, discharge: bool, previous: Entry, before: Horizon)
    requires Orderly(h, discharge) && Deliverable(h, discharge, h.searched) && Deliverable(before, discharge, previous)
    ensures Deliverable(h, discharge, Clamp(h, discharge, previous))
  {
    var mine: real :| Delivers(h, discharge, h.searched, mine);
    var theirs: real :| Delivers(before, discharge, previous, theirs);
    MagnitudeOf(h.searched.current, mine, discharge);
    MagnitudeOf(previous.current, theirs, discharge);
    if Exceeds(h.searched.current, previous.current, discharge) {
      assert h.e(Signed(theirs, discharge)).feasible;
      assert Delivers(h, discharge, Clamp(h, discharge, previous), theirs);
    }
  }

  /** Every published entry is deliverable over its own horizon. */
  lemma {:induction false} EnvelopeIsDeliverable(hs: seq<Horizon>, discharge: bool, i: nat)
    requires i < |hs| && AllSound(hs, discharge)
    ensures Deliverable(hs[i], discharge, Envelope(hs, discharge, i))
    decreases i
  {
    if i > 0 {
      EnvelopeIsDeliverable(hs, discharge, i - 1);
      ClampIsDeliverable(hs[i], discharge, Envelope(hs, discharge, i - 1), hs[i - 1]);
    }
  }

  /** Published magnitudes never grow with the horizon, whatever the searches found. */
  lemma {:induction false} EnvelopeNeverGrows(hs: seq<Horizon>, discharge: bool, i: nat, k: nat)
    requires i <= k < |hs|
    ensures Magnitude(Envelope(hs, discharge, k).current, discharge) <= Magnitude(Envelope(hs, discharge, i).current, discharge)
    decreases k - i
  {
    if i < k { EnvelopeNeverGrows(hs, discharge, i, k - 1); }
  }

  /** Nothing is lost beyond the searches: the published magnitude is one of theirs, at the same horizon or before. */
  lemma {:induction false} EnvelopeIsSomeSearch(hs: seq<Horizon>, discharge: bool, i: nat) returns (k: nat)
    requires i < |hs|
    ensures k <= i && Envelope(hs, discharge, i).current == hs[k].searched.current
    decreases i
  {
    k := i;
    if i > 0 && Exceeds(hs[i].searched.current, Envelope(hs, discharge, i - 1).current, discharge) {
      k := EnvelopeIsSomeSearch(hs, discharge, i - 1);
    }
  }

  // ----- the solver -----

  /** The inputs of a solve; the caps are the path limits at each horizon. */
  datatype Job = Job(m: Functions, data: Data, c: Config, horizons: seq<real>, dischargeMax: seq<real>, chargeMax: seq<real>)
  {
    predicate Valid() {
      c.Valid() && AllValid(data.segments) && |dischargeMax| == |horizons| && |chargeMax| == |horizons|
    }
  }

  function SearchAt(j: Job, i: nat, discharge: bool): Search
    requires j.Valid() && i < |j.horizons|
  {
    Search(j.m, j.data, j.c, j.horizons[i], discharge, HALVINGS)
  }

  function CapAt(j: Job, i: nat, discharge: bool): real
    requires j.Valid() && i < |j.horizons|
  {
    if discharge then j.dischargeMax[i] else j.chargeMax[i]
  }

  /** The entry of a search: its current, the power of an evaluation at it, and its binding. */
  function EntryOf(e: real -> Evaluation, limit: Limit, discharge: bool): Entry {
    var current := Signed(limit.magnitude, discharge);
    Entry(current, Power(e(current), limit.magnitude), limit.evaluation.binding)
  }

  function HorizonOf(j: Job, i: nat, discharge: bool): Horizon
    requires j.Valid() && i < |j.horizons|
  {
    var e := x => EvaluateAt(j.m, j.data, j.c, x, discharge, j.horizons[i]);
    Horizon(e, CapAt(j, i, discharge), EntryOf(e, LimitOf(SearchAt(j, i, discharge), CapAt(j, i, discharge)), discharge))
  }

  function HorizonsOf(j: Job, discharge: bool): (hs: seq<Horizon>)
    requires j.Valid()
    ensures |hs| == |j.horizons| && forall i | 0 <= i < |hs| :: hs[i] == HorizonOf(j, i, discharge)
  {
    seq(|j.horizons|, i requires 0 <= i < |j.horizons| => HorizonOf(j, i, discharge))
  }

  method SearchHorizon(j: Job, i: nat, discharge: bool) returns (r: Entry)
    requires j.Valid() && i < |j.horizons|
    ensures r == HorizonOf(j, i, discharge).searched
  {
    var limit := SolveDirection(SearchAt(j, i, discharge), CapAt(j, i, discharge));
    var current := Signed(limit.magnitude, discharge);
    var final := EvaluateCurrent(j.m, j.data, j.c, current, discharge, j.horizons[i]);
    r := Entry(current, Power(final, limit.magnitude), limit.evaluation.binding);
  }

  method ClampHorizon(j: Job, entries: seq<Entry>, i: nat, discharge: bool, ghost h: Horizon) returns (r: seq<Entry>)
    requires j.Valid() && 1 <= i < |entries| == |j.horizons| && h == HorizonOf(j, i, discharge) && entries[i] == h.searched
    ensures r == entries[i := Clamp(h, discharge, entries[i - 1])]
  {
    r := entries;
    if Exceeds(r[i].current, r[i - 1].current, discharge) {
      var current := r[i - 1].current;
      var checked := EvaluateCurrent(j.m, j.data, j.c, current, discharge, j.horizons[i]);
      r := r[i := Entry(current, Power(checked, Magnitude(current, discharge)), HorizonEnvelope)];
    }
  }

  /** The entries in the middle of the clamp loop: the first n are final, the rest as searched. */
  ghost predicate ClampedUpTo(hs: seq<Horizon>, entries: seq<Entry>, n: nat, discharge: bool) {
    && |entries| == |hs|
    && forall i | 0 <= i < |entries| :: entries[i] == if i < n then Envelope(hs, discharge, i) else hs[i].searched
  }

  lemma ClampOneMore(hs: seq<Horizon>, entries: seq<Entry>, i: nat, discharge: bool)
    requires ClampedUpTo(hs, entries, i, discharge) && 1 <= i < |entries|
    ensures ClampedUpTo(hs, entries[i := Clamp(hs[i], discharge, entries[i - 1])], i + 1, discharge)
  {
  }

  /** The first loop: every horizon searched in both directions. */
  method SearchAll(j: Job) returns (discharge: seq<Entry>, charge: seq<Entry>)
    requires j.Valid()
    ensures |discharge| == |charge| == |j.horizons|
    ensures forall i | 0 <= i < |discharge| :: discharge[i] == HorizonOf(j, i, true).searched
    ensures forall i | 0 <= i < |charge| :: charge[i] == HorizonOf(j, i, false).searched
  {
    discharge, charge := [], [];
    for i := 0 to |j.horizons|
      invariant |discharge| == |charge| == i
      invariant forall k | 0 <= k < i :: discharge[k] == HorizonOf(j, k, true).searched
      invariant forall k | 0 <= k < i :: charge[k] == HorizonOf(j, k, false).searched
    {
      var d := SearchHorizon(j, i, true);
      var c := SearchHorizon(j, i, false);
      discharge, charge := discharge + [d], charge + [c];
    }
  }

  /** The second loop: the clamp, in place, from the second horizon on. */
  method ClampAll(j: Job, ds: seq<Entry>, cs: seq<Entry>, ghost dhs: seq<Horizon>, ghost chs: seq<Horizon>)
    returns (discharge: seq<Entry>, charge: seq<Entry>)
    requires j.Valid() && j.horizons != [] && dhs == HorizonsOf(j, true) && chs == HorizonsOf(j, false)
    requires ClampedUpTo(dhs, ds, 1, true) && ClampedUpTo(chs, cs, 1, false)
    ensures ClampedUpTo(dhs, discharge, |dhs|, true) && ClampedUpTo(chs, charge, |chs|, false)
  {
    discharge, charge := ds, cs;
    for i := 1 to |j.horizons|
      invariant ClampedUpTo(dhs, discharge, i, true) && ClampedUpTo(chs, charge, i, false)
    {
      ClampOneMore(dhs, discharge, i, true);
      ClampOneMore(chs, charge, i, false);
      discharge := ClampHorizon(j, discharge, i, true, dhs[i]);
      charge := ClampHorizon(j, charge, i, false, chs[i]);
    }
  }

  method Solve(j: Job) returns (discharge: seq<Entry>, charge: seq<Entry>)
    requires j.Valid()
    ensures |discharge| == |charge| == |j.horizons|
    ensures forall i | 0 <= i < |discharge| :: discharge[i] == Envelope(HorizonsOf(j, true), true, i)
    ensures forall i | 0 <= i < |charge| :: charge[i] == Envelope(HorizonsOf(j, false), false, i)
  {
    discharge, charge := SearchAll(j);
    if j.horizons != [] {
      discharge, charge := ClampAll(j, discharge, charge, HorizonsOf(j, true), HorizonsOf(j, false));
    }
  }

  // ----- what the solver publishes -----

  /** Every search up to its cap rests on what it needs. */
  ghost predicate Sound(j: Job, discharge: bool)
    requires j.Valid()
  {
    forall i | 0 <= i < |j.horizons| ::
      CapAt(j, i, discharge) >= 0.0 && Tolerant(j.m, j.data, j.c, discharge, CapAt(j, i, discharge), j.horizons[i])
  }

  lemma HorizonIsOrderly(j: Job, i: nat, discharge: bool)
    requires j.Valid() && i < |j.horizons| && Sound(j, discharge)
    ensures Orderly(HorizonOf(j, i, discharge), discharge)
  {
    var e := HorizonOf(j, i, discharge).e;
    assert Signed(0.0, discharge) == 0.0;
    forall x: real, y: real | 0.0 <= x <= y <= CapAt(j, i, discharge) && e(0.0).feasible && e(Signed(y, discharge)).feasible
      ensures e(Signed(x, discharge)).feasible
    {
      FeasibleIsDownwardClosed(j.m, j.data, j.c, x, y, CapAt(j, i, discharge), discharge, j.horizons[i]);
    }
  }

  lemma TightEntryDelivers(e: real -> Evaluation, f: real -> Evaluation, cap: real, gap: real, r: Limit, discharge: bool)
    requires (forall x: real :: f(x) == e(Signed(x, discharge))) && Tight(f, cap, gap, r) && cap >= 0.0
    requires !f(0.0).feasible ==> r.magnitude == 0.0
    ensures Deliverable(Horizon(e, cap, EntryOf(e, r, discharge)), discharge, EntryOf(e, r, discharge))
  {
    assert Delivers(Horizon(e, cap, EntryOf(e, r, discharge)), discharge, EntryOf(e, r, discharge), r.magnitude);
  }

  lemma HorizonIsDeliverable(j: Job, i: nat, discharge: bool)
    requires j.Valid() && i < |j.horizons| && Sound(j, discharge)
    ensures Deliverable(HorizonOf(j, i, discharge), discharge, HorizonOf(j, i, discharge).searched)
  {
    var s, cap := SearchAt(j, i, discharge), CapAt(j, i, discharge);
    LimitIsTight(s, cap);
    TightEntryDelivers(HorizonOf(j, i, discharge).e, Evaluations(s), cap, Resolution(s, cap), LimitOf(s, cap), discharge);
  }

  lemma HorizonsAreSound(j: Job, discharge: bool)
    requires j.Valid() && Sound(j, discharge)
    ensures AllSound(HorizonsOf(j, discharge), discharge)
  {
    forall i | 0 <= i < |j.horizons|
      ensures Orderly(HorizonOf(j, i, discharge), discharge)
      ensures Deliverable(HorizonOf(j, i, discharge), discharge, HorizonOf(j, i, discharge).searched)
    {
      HorizonIsOrderly(j, i, discharge);
      HorizonIsDeliverable(j, i, discharge);
    }
  }

  /** Every published current is within its cap and, unless zero, feasible over its own horizon, and its power is that of
      this current. */
  lemma PublishedIsSafe(j: Job, i: nat, discharge: bool)
    requires j.Valid() && i < |j.horizons| && Sound(j, discharge)
    ensures var hs := HorizonsOf(j, discharge); Deliverable(hs[i], discharge, Envelope(hs, discharge, i))
  {
    HorizonsAreSound(j, discharge);
    EnvelopeIsDeliverable(HorizonsOf(j, discharge), discharge, i);
  }

  /** Published magnitudes never grow with the horizon. */
  lemma PublishedNeverGrows(j: Job, i: nat, k: nat, discharge: bool)
    requires j.Valid() && i <= k < |j.horizons|
    ensures var hs := HorizonsOf(j, discharge);
      Magnitude(Envelope(hs, discharge, k).current, discharge) <= Magnitude(Envelope(hs, discharge, i).current, discharge)
  {
    EnvelopeNeverGrows(HorizonsOf(j, discharge), discharge, i, k);
  }

  lemma SixteenHalvings(s: Search, cap: real)
    requires s.halvings == HALVINGS
    ensures Resolution(s, cap) == cap / 65536.0
  {
    TwoToAdds(8, 8);
    assert TwoTo(8) == 256;
  }

  /** x and zero are feasible over this horizon, and x is within its cap. */
  ghost predicate Holds(j: Job, k: nat, discharge: bool, x: real)
    requires j.Valid() && k < |j.horizons|
  {
    var e := Evaluations(SearchAt(j, k, discharge));
    e(0.0).feasible && e(x).feasible && 0.0 <= x <= CapAt(j, k, discharge)
  }

  lemma SearchedIsTight(j: Job, k: nat, discharge: bool, x: real, cap: real)
    requires j.Valid() && k < |j.horizons| && Sound(j, discharge) && Holds(j, k, discharge, x) && CapAt(j, k, discharge) <= cap
    ensures x <= Magnitude(HorizonOf(j, k, discharge).searched.current, discharge) + cap / 65536.0
  {
    var s := SearchAt(j, k, discharge);
    LimitIsTight(s, CapAt(j, k, discharge));
    SixteenHalvings(s, CapAt(j, k, discharge));
    assert Feasible(Evaluations(s))(x);
    MagnitudeOf(HorizonOf(j, k, discharge).searched.current, LimitOf(s, CapAt(j, k, discharge)).magnitude, discharge);
  }

  /** The envelope is tight: no current that could be held over every horizon up to this one exceeds the published
      magnitude by more than 2^-16 of the largest cap. */
  lemma PublishedIsTight(j: Job, i: nat, discharge: bool, x: real, cap: real)
    requires j.Valid() && i < |j.horizons| && Sound(j, discharge)
    requires forall k | 0 <= k <= i :: Holds(j, k, discharge, x) && CapAt(j, k, discharge) <= cap
    ensures x <= Magnitude(Envelope(HorizonsOf(j, discharge), discharge, i).current, discharge) + cap / 65536.0
  {
    var k := EnvelopeIsSomeSearch(HorizonsOf(j, discharge), discharge, i);
    SearchedIsTight(j, k, discharge, x, cap);
  }

  /** With every horizon longer than the one before and on the step grid, a current that can be held over the last
      of them can be held over all. */
  ghost predicate Ascending(j: Job, i: nat)
    requires j.Valid() && i < |j.horizons|
  {
    forall k | 0 <= k < i :: j.horizons[k] < j.horizons[i] && SopSchedule.Aligned(j.c.steps, 0.0, j.horizons[k])
  }

  lemma HeldOverShorter(j: Job, k: nat, i: nat, discharge: bool, x: real)
    requires j.Valid() && k <= i < |j.horizons| && Ascending(j, i) && Holds(j, i, discharge, x) && x <= CapAt(j, k, discharge)
    ensures Holds(j, k, discharge, x)
  {
    if k < i {
      LongerFeasibleIsShorterFeasible(j.m, j.data, j.c, Signed(0.0, discharge), discharge, j.horizons[k], j.horizons[i]);
      LongerFeasibleIsShorterFeasible(j.m, j.data, j.c, Signed(x, discharge), discharge, j.horizons[k], j.horizons[i]);
      assert Evaluations(SearchAt(j, i, discharge))(x) == SearchAt(j, i, discharge).At(x);
      assert Evaluations(SearchAt(j, k, discharge))(x) == SearchAt(j, k, discharge).At(x);
    }
  }

  /** On the step grid one horizon is enough: no current feasible over horizon i, and within the caps so far, exceeds
      what is published there by more than 2^-16 of the largest of these caps. */
  lemma PublishedIsTightOnGrid(j: Job, i: nat, discharge: bool, x: real, cap: real)
    requires j.Valid() && i < |j.horizons| && Sound(j, discharge) && Ascending(j, i) && Holds(j, i, discharge, x)
    requires forall k | 0 <= k <= i :: x <= CapAt(j, k, discharge) <= cap
    ensures x <= Magnitude(Envelope(HorizonsOf(j, discharge), discharge, i).current, discharge) + cap / 65536.0
  {
    forall k | 0 <= k <= i ensures Holds(j, k, discharge, x) { HeldOverShorter(j, k, i, discharge, x); }
    PublishedIsTight(j, i, discharge, x, cap);
  }
}
