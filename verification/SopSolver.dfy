/** The State-of-Power search for one direction and horizon (_solve_direction): zero, the cap, or a bisection
    between them, and how close to the greatest feasible current it gets. */
module SopSolver {
  import opened Bisection
  import Reals
  import opened Elementary
  import opened SopModel
  import opened SopEvaluator
  import opened SopMonotone

  const HALVINGS: nat := 16

  /** What a search works on: the inputs, the horizon, the direction, and how often it halves its bracket. */
  datatype Search = Search(m: Functions, data: Data, c: Config, horizon: real, discharge: bool, halvings: nat)
  {
    ghost predicate Valid() { c.Valid() && AllValid(data.segments) }

    function At(magnitude: real): Evaluation
      requires c.Valid() && AllValid(data.segments)
    {
      EvaluateAt(m, data, c, Signed(magnitude, discharge), discharge, horizon)
    }
  }

  /** The width of the final bracket. */
  function Resolution(s: Search, cap: real): real {
    TwoToPositive(s.halvings);
    cap / TwoTo(s.halvings) as real
  }

  lemma {:induction false} TwoToPositive(n: nat)
    ensures TwoTo(n) >= 1
  {
    if n > 0 { TwoToPositive(n - 1); }
  }

  /** The evaluation of the search, and whether it passes, as functions of the magnitude. */
  function Evaluations(s: Search): real -> Evaluation
    requires s.c.Valid() && AllValid(s.data.segments)
  {
    magnitude => s.At(magnitude)
  }

  function Feasible(e: real -> Evaluation): real -> bool { magnitude => e(magnitude).feasible }

  function Passes(s: Search): real -> bool
    requires s.c.Valid() && AllValid(s.data.segments)
  {
    Feasible(Evaluations(s))
  }

  datatype Limit = Limit(magnitude: real, evaluation: Evaluation)

  /** Zero when nothing is feasible, the cap when it is feasible, and otherwise the lower end of the final
      bracket with the evaluation at its infeasible upper end. */
  function LimitFrom(e: real -> Evaluation, cap: real, gap: real, n: nat): Limit {
    if !e(0.0).feasible then Limit(0.0, e(0.0))
    else if e(cap).feasible then Limit(cap, e(cap).(binding := CurrentPath, segment := UNLIMITED, cell := UNLIMITED))
    else
      var lower := Lower(Feasible(e), 0.0, cap, n);
      Limit(lower, e(lower + gap))
  }

  function LimitOf(s: Search, cap: real): Limit
    requires s.c.Valid() && AllValid(s.data.segments)
  {
    LimitFrom(Evaluations(s), cap, Resolution(s, cap), s.halvings)
  }

  /** Evaluates the current of this magnitude in the direction of the search. */
  method Probe(s: Search, magnitude: real, ghost e: real -> Evaluation) returns (r: Evaluation)
    requires s.Valid() && Evaluates(s, e)
    ensures r == e(magnitude)
  {
    r := EvaluateCurrent(s.m, s.data, s.c, Signed(magnitude, s.discharge), s.discharge, s.horizon);
    assert r == s.At(magnitude);
  }

  /** e is the evaluation of the search as a function of the magnitude. */
  ghost predicate Evaluates(s: Search, e: real -> Evaluation)
    requires s.Valid()
  {
    forall x: real {:trigger s.At(x)} :: e(x) == s.At(x)
  }

  /** The width left after i halvings of the cap. */
  ghost predicate Halved(width: real, i: nat, cap: real) { width * TwoTo(i) as real == cap }

  lemma HalveAgain(width: real, half: real, i: nat, cap: real)
    requires Halved(width, i, cap) && half == width / 2.0
    ensures Halved(half, i + 1, cap)
  {
    var t := TwoTo(i) as real;
    assert TwoTo(i + 1) as real == 2.0 * t;
    assert half * (2.0 * t) == width * t;
  }

  lemma WidthQuotient(w: real, t: real, cap: real)
    requires t > 0.0 && w * t == cap
    ensures w == cap / t
  {
    assert (cap / t) * t == cap;
    assert (w - cap / t) * t == 0.0;
  }

  lemma HalvedIsResolution(s: Search, width: real, cap: real)
    requires Halved(width, s.halvings, cap)
    ensures width == Resolution(s, cap)
  {
    TwoToPositive(s.halvings);
    WidthQuotient(width, TwoTo(s.halvings) as real, cap);
  }

  datatype Bracket = Bracket(lower: real, upper: real, above: Evaluation)

  /** One halving: keeps the half that still has a feasible lower and an infeasible upper end. */
  method Halve(s: Search, b: Bracket, ghost e: real -> Evaluation, ghost n: nat, ghost i: nat, ghost cap: real)
    returns (r: Bracket)
    requires s.Valid() && Evaluates(s, e)
    requires Halved(b.upper - b.lower, i, cap) && b.above == e(b.upper) && n > 0
    ensures Lower(Feasible(e), b.lower, b.upper, n) == Lower(Feasible(e), r.lower, r.upper, n - 1)
    ensures Halved(r.upper - r.lower, i + 1, cap) && r.above == e(r.upper)
  {
    var candidate := (b.lower + b.upper) / 2.0;
    var checked := Probe(s, candidate, e);
    HalveAgain(b.upper - b.lower, b.upper - candidate, i, cap);
    HalveAgain(b.upper - b.lower, candidate - b.lower, i, cap);
    r := if checked.feasible then b.(lower := candidate) else b.(upper := candidate, above := checked);
  }

  method Bisect(s: Search, cap: real, atCap: Evaluation, ghost e: real -> Evaluation) returns (r: Limit)
    requires s.Valid() && Evaluates(s, e) && atCap == e(cap)
    ensures var lower := Lower(Feasible(e), 0.0, cap, s.halvings); r == Limit(lower, e(lower + Resolution(s, cap)))
  {
    var b := Bracket(0.0, cap, atCap);
    for i := 0 to s.halvings
      invariant Lower(Feasible(e), 0.0, cap, s.halvings) == Lower(Feasible(e), b.lower, b.upper, s.halvings - i)
      invariant Halved(b.upper - b.lower, i, cap) && b.above == e(b.upper)
    {
      b := Halve(s, b, e, s.halvings - i, i, cap);
    }
    HalvedIsResolution(s, b.upper - b.lower, cap);
    r := Limit(b.lower, b.above);
  }

  method SolveFrom(s: Search, cap: real, ghost e: real -> Evaluation) returns (r: Limit)
    requires s.Valid() && Evaluates(s, e)
    ensures r == LimitFrom(e, cap, Resolution(s, cap), s.halvings)
  {
    var zero := Probe(s, 0.0, e);
    if !zero.feasible {
      return Limit(0.0, zero);
    }
    var atCap := Probe(s, cap, e);
    if atCap.feasible {
      return Limit(cap, atCap.(binding := CurrentPath, segment := UNLIMITED, cell := UNLIMITED));
    }
    r := Bisect(s, cap, atCap, e);
  }

  method SolveDirection(s: Search, cap: real) returns (r: Limit)
    requires s.Valid()
    ensures r == LimitOf(s, cap)
  {
    r := SolveFrom(s, cap, Evaluations(s));
  }

  // ----- what one search promises -----

  lemma WidthIsResolution(s: Search, cap: real)
    ensures Width(cap, s.halvings) == Resolution(s, cap)
  {
    WidthIsQuotient(cap, s.halvings);
    WidthQuotient(Width(cap, s.halvings), TwoTo(s.halvings) as real, cap);
  }

  /** What the search up to a cap rests on. */
  ghost predicate Sound(s: Search, cap: real) { Tolerant(s.m, s.data, s.c, s.discharge, cap, s.horizon) }

  lemma PassesIsDownwardClosed(s: Search, cap: real)
    requires Sound(s, cap) && s.Valid() && s.At(0.0).feasible
    ensures DownwardClosed(Passes(s), 0.0, cap)
  {
    assert Signed(0.0, s.discharge) == 0.0;
    forall x: real, y: real | 0.0 <= x <= y <= cap && Passes(s)(y) ensures Passes(s)(x) {
      FeasibleIsDownwardClosed(s.m, s.data, s.c, x, y, cap, s.discharge, s.horizon);
    }
  }

  /** Bisection of a closed test that passes at zero and fails at the cap. */
  lemma SearchIsTight(p: real -> bool, cap: real, n: nat)
    requires cap >= 0.0 && DownwardClosed(p, 0.0, cap) && p(0.0) && !p(cap)
    ensures var low := Lower(p, 0.0, cap, n);
      && 0.0 <= low <= cap && p(low) && !p(low + Width(cap, n))
      && forall x: real | 0.0 <= x <= cap && p(x) :: x <= low + Width(cap, n)
  {
    LowerInBracket(p, 0.0, cap, n);
    UpperEndFails(p, 0.0, cap, n);
    assert cap - 0.0 == cap;
    forall x: real | 0.0 <= x <= cap && p(x) ensures x <= Lower(p, 0.0, cap, n) + Width(cap, n) {
      LowerIsClose(p, 0.0, cap, n, x);
    }
  }

  /** No passing magnitude up to the cap exceeds this one by more than the gap. */
  ghost predicate NearlyGreatest(p: real -> bool, cap: real, magnitude: real, gap: real) {
    forall x: real | 0.0 <= x <= cap && p(x) :: x <= magnitude + gap
  }

  /** The limit passes unless it is zero, no passing magnitude up to the cap exceeds it by more than the gap,
      and a limit below the cap comes with the failing evaluation that close above it. */
  ghost predicate Tight(e: real -> Evaluation, cap: real, gap: real, r: Limit) {
    && 0.0 <= r.magnitude <= cap && (r.magnitude > 0.0 ==> e(r.magnitude).feasible)
    && (e(0.0).feasible ==>
          && e(r.magnitude).feasible && NearlyGreatest(Feasible(e), cap, r.magnitude, gap)
          && (r.magnitude < cap ==> !r.evaluation.feasible && r.evaluation == e(r.magnitude + gap)))
  }

  lemma SearchFromIsTight(e: real -> Evaluation, cap: real, gap: real, n: nat)
    requires cap >= 0.0 && gap >= 0.0 && gap == Width(cap, n)
    requires e(0.0).feasible ==> DownwardClosed(Feasible(e), 0.0, cap)
    ensures Tight(e, cap, gap, LimitFrom(e, cap, gap, n))
  {
    if e(0.0).feasible && !e(cap).feasible {
      SearchIsTight(Feasible(e), cap, n);
    }
  }

  /** One direction and horizon: the answer is tight for the evaluations of that search. */
  lemma LimitIsTight(s: Search, cap: real)
    requires Sound(s, cap) && s.Valid() && cap >= 0.0
    ensures Tight(Evaluations(s), cap, Resolution(s, cap), LimitOf(s, cap))
  {
    if Evaluations(s)(0.0).feasible {
      PassesIsDownwardClosed(s, cap);
    }
    TwoToPositive(s.halvings);
    Reals.QuotientSign(cap, TwoTo(s.halvings) as real);
    WidthIsResolution(s, cap);
    SearchFromIsTight(Evaluations(s), cap, Resolution(s, cap), s.halvings);
  }
}
