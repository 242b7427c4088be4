/** The published State-of-Power entries in signed currents, powers and bindings. */
module SopPublished {
  import Reals
  import Bisection
  import opened SopModel
  import opened SopEvaluator
  import opened SopMonotone
  import opened SopSolver
  import opened SopEnvelope

  /** The evaluation of a signed current over horizon i. */
  function At(j: Job, i: nat, discharge: bool, current: real): Evaluation
    requires j.Valid() && i < |j.horizons|
  {
    EvaluateAt(j.m, j.data, j.c, current, discharge, j.horizons[i])
  }

  function Published(j: Job, i: nat, discharge: bool): Entry
    requires j.Valid() && i < |j.horizons|
  {
    Envelope(HorizonsOf(j, discharge), discharge, i)
  }

  /** The current lies in its direction, within the path limit of horizon i. */
  predicate InRange(j: Job, i: nat, discharge: bool, current: real)
    requires j.Valid() && i < |j.horizons|
  {
    if discharge then 0.0 <= current <= j.dischargeMax[i] else -j.chargeMax[i] <= current <= 0.0
  }

  /** The magnitude of a signed current. */
  function Size(current: real): real { if current < 0.0 then -current else current }

  function NoLessThanZero(x: real): real { if x > 0.0 then x else 0.0 }

  lemma PowerIs(e: Evaluation, magnitude: real)
    ensures SopEnvelope.Power(e, magnitude) == NoLessThanZero(Reals.Times(e.packVoltage, magnitude))
  {
  }

  lemma DeliveredIs(j: Job, i: nat, discharge: bool, r: Entry, magnitude: real, e: Evaluation)
    requires j.Valid() && i < |j.horizons| && Delivers(HorizonOf(j, i, discharge), discharge, r, magnitude) && e == At(j, i, discharge, r.current)
    ensures InRange(j, i, discharge, r.current) && (r.current != 0.0 ==> e.feasible)
    ensures magnitude == Size(r.current) && r.power == SopEnvelope.Power(e, magnitude)
  {
  }

  /** Every published current is in range, feasible over its own horizon unless zero, and comes with the power that an
      evaluation at this very current gives it, or none if that is negative. */
  lemma PublishedInPlainTerms(j: Job, i: nat, discharge: bool, r: Entry, e: Evaluation)
    requires j.Valid() && i < |j.horizons| && SopEnvelope.Sound(j, discharge)
    requires r == Published(j, i, discharge) && e == At(j, i, discharge, r.current)
    ensures InRange(j, i, discharge, r.current) && (r.current != 0.0 ==> e.feasible)
    ensures r.power == NoLessThanZero(Reals.Times(e.packVoltage, Size(r.current)))
  {
    PublishedIsSafe(j, i, discharge);
    var magnitude: real :| Delivers(HorizonOf(j, i, discharge), discharge, r, magnitude);
    DeliveredIs(j, i, discharge, r, magnitude, e);
    PowerIs(e, magnitude);
  }

  // ----- how much -----

  /** A current of this magnitude in the direction, and zero, are feasible over horizon k. */
  predicate Held(j: Job, k: nat, discharge: bool, magnitude: real)
    requires j.Valid() && k < |j.horizons|
  {
    var current := if discharge then magnitude else -magnitude;
    At(j, k, discharge, 0.0).feasible && At(j, k, discharge, current).feasible && InRange(j, k, discharge, current)
  }

  lemma HeldHolds(j: Job, k: nat, discharge: bool, magnitude: real)
    requires j.Valid() && k < |j.horizons| && Held(j, k, discharge, magnitude)
    ensures Holds(j, k, discharge, magnitude)
  {
    assert Signed(0.0, discharge) == 0.0;
    assert Evaluations(SearchAt(j, k, discharge))(magnitude) == SearchAt(j, k, discharge).At(magnitude);
    assert Evaluations(SearchAt(j, k, discharge))(0.0) == SearchAt(j, k, discharge).At(0.0);
  }

  /** No magnitude that can be held over every horizon so far exceeds the published one by more than 1/65536 of the largest
      path limit. */
  lemma NothingMuchGreater(j: Job, i: nat, discharge: bool, magnitude: real, cap: real, r: Entry)
    requires j.Valid() && i < |j.horizons| && SopEnvelope.Sound(j, discharge) && r == Published(j, i, discharge)
    requires forall k | 0 <= k <= i :: Held(j, k, discharge, magnitude)
    requires forall k | 0 <= k <= i :: (if discharge then j.dischargeMax[k] else j.chargeMax[k]) <= cap
    ensures magnitude <= Size(r.current) + cap / 65536.0
  {
    forall k | 0 <= k <= i ensures Holds(j, k, discharge, magnitude) && CapAt(j, k, discharge) <= cap {
      HeldHolds(j, k, discharge, magnitude);
    }
    PublishedIsTight(j, i, discharge, magnitude, cap);
    PublishedInPlainTerms(j, i, discharge, r, At(j, i, discharge, r.current));
  }

  // ----- the binding -----

  /** The evaluation at x, no more than gap beyond the entry, fails with the entry's binding. */
  ghost predicate StoppedBy(e: real -> Evaluation, discharge: bool, r: Entry, x: real, gap: real) {
    !e(x).feasible && e(x).binding == r.binding && (if discharge then x <= r.current + gap else r.current - gap <= x)
  }

  /** What a searched entry's binding tells: the path limit itself is feasible, or some current at most gap beyond the entry is
      not, and the binding is that evaluation's. */
  ghost predicate Tells(e: real -> Evaluation, cap: real, discharge: bool, r: Entry, gap: real) {
    || (r.binding == CurrentPath && r.current == (if discharge then cap else -cap) && e(r.current).feasible)
    || (exists x: real :: StoppedBy(e, discharge, r, x, gap))
  }

  lemma LimitTells(e: real -> Evaluation, f: real -> Evaluation, discharge: bool, cap: real, gap: real, n: nat, limit: Limit)
    requires (forall x: real :: f(x) == e(Signed(x, discharge))) && cap >= 0.0 && gap >= 0.0 && gap == Bisection.Width(cap, n)
    requires limit == LimitFrom(f, cap, gap, n)
    ensures Tells(e, cap, discharge, EntryOf(e, limit, discharge), gap)
  {
    var r := EntryOf(e, limit, discharge);
    if !f(0.0).feasible {
      assert StoppedBy(e, discharge, r, Signed(0.0, discharge), gap);
    } else if !f(cap).feasible {
      Bisection.UpperEndFails(Feasible(f), 0.0, cap, n);
      assert cap - 0.0 == cap;
      assert StoppedBy(e, discharge, r, Signed(limit.magnitude + gap, discharge), gap);
    }
  }

  /** The evaluation of any signed current over horizon i, as a function. */
  function Evaluator(j: Job, i: nat, discharge: bool): (e: real -> Evaluation)
    requires j.Valid() && i < |j.horizons|
    ensures forall x: real :: e(x) == At(j, i, discharge, x)
  {
    HorizonOf(j, i, discharge).e
  }

  lemma SearchedTells(j: Job, i: nat, discharge: bool, cap: real, r: Entry, gap: real)
    requires j.Valid() && i < |j.horizons| && cap >= 0.0 && cap == CapAt(j, i, discharge) && r == HorizonOf(j, i, discharge).searched
    requires gap == Resolution(SearchAt(j, i, discharge), cap)
    ensures Tells(Evaluator(j, i, discharge), cap, discharge, r, gap)
  {
    var s := SearchAt(j, i, discharge);
    TwoToPositive(s.halvings);
    Reals.QuotientSign(cap, Bisection.TwoTo(s.halvings) as real);
    WidthIsResolution(s, cap);
    LimitTells(Evaluator(j, i, discharge), Evaluations(s), discharge, cap, gap, s.halvings, LimitOf(s, cap));
  }

  lemma EntryIsSearchedOrRepeated(hs: seq<Horizon>, discharge: bool, i: nat)
    requires i < |hs|
    ensures var r := Envelope(hs, discharge, i);
      r == hs[i].searched || (r.binding == HorizonEnvelope && i > 0 && r.current == Envelope(hs, discharge, i - 1).current)
  {
  }

  ghost predicate Repeats(j: Job, i: nat, discharge: bool, r: Entry)
    requires j.Valid() && i < |j.horizons|
  {
    r.binding == HorizonEnvelope && i > 0 && r.current == Published(j, i - 1, discharge).current
  }

  lemma SearchedOrRepeated(j: Job, i: nat, discharge: bool, r: Entry)
    requires j.Valid() && i < |j.horizons| && r == Published(j, i, discharge)
    ensures r == HorizonOf(j, i, discharge).searched || Repeats(j, i, discharge, r)
  {
    EntryIsSearchedOrRepeated(HorizonsOf(j, discharge), discharge, i);
  }

  /** A published binding names what stops the current: the shorter horizon whose entry is repeated, the path limit, or the limit
      that breaks within 1/65536 of the path limit beyond it. */
  lemma BindingTellsWhatStops(j: Job, i: nat, discharge: bool, cap: real, r: Entry, gap: real)
    requires j.Valid() && i < |j.horizons| && cap >= 0.0 && cap == (if discharge then j.dischargeMax[i] else j.chargeMax[i])
    requires r == Published(j, i, discharge) && gap == cap / 65536.0
    ensures Repeats(j, i, discharge, r) || Tells(Evaluator(j, i, discharge), cap, discharge, r, gap)
  {
    SixteenHalvings(SearchAt(j, i, discharge), cap);
    SearchedOrRepeated(j, i, discharge, r);
    if !Repeats(j, i, discharge, r) {
      SearchedTells(j, i, discharge, cap, r, gap);
    }
  }

  /** The published magnitude is the least that any search up to this horizon found. */
  lemma PublishedIsLeastSearched(j: Job, i: nat, discharge: bool) returns (k: nat)
    requires j.Valid() && i < |j.horizons|
    ensures k <= i && Published(j, i, discharge).current == HorizonOf(j, k, discharge).searched.current
    ensures forall n | 0 <= n <= i ::
      Magnitude(Published(j, i, discharge).current, discharge) <= Magnitude(HorizonOf(j, n, discharge).searched.current, discharge)
  {
    k := EnvelopeIsSomeSearch(HorizonsOf(j, discharge), discharge, i);
    forall n | 0 <= n <= i
      ensures Magnitude(Published(j, i, discharge).current, discharge) <= Magnitude(HorizonOf(j, n, discharge).searched.current, discharge)
    {
      EnvelopeNeverGrows(HorizonsOf(j, discharge), discharge, n, i);
      EnvelopeBelowSearch(HorizonsOf(j, discharge), discharge, n);
    }
  }

  lemma EnvelopeBelowSearch(hs: seq<Horizon>, discharge: bool, n: nat)
    requires n < |hs|
    ensures Magnitude(Envelope(hs, discharge, n).current, discharge) <= Magnitude(hs[n].searched.current, discharge)
  {
  }
}
