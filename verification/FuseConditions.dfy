/** For exactly which configurations the fuse observer's caps are sound, and close to the greatest feasible current. */
module FuseConditions {
  import opened Reals
  import opened Elementary
  import opened Bisection
  import opened FuseCurve
  import opened FuseObserver
  import opened FuseProperties
  import opened FuseCaps

  const FIRST: real := CURVE[0].current

  // ----- a current below 154 A that heats faster than 154 A -----

  lemma UnitEquivalent(x: real)
    requires x >= 0.0
    ensures Equivalent(x, 0.0, 1.0) == x
  {
    assert (x + 0.0) / 1.0 == x;
  }

  /** Over the usable time at 154 A, a faster heating rate reaches more than 1. */
  lemma FasterExceeds(m: Functions, c: Config, x: real, h: real)
    requires m.Valid() && c.Valid() && SourceRate(m, c, x) > SourceRate(m, c, FIRST)
    requires Usable(m, c, FIRST).Seconds? && h == Usable(m, c, FIRST).s
    ensures h > 0.0 && Relaxed(0.0, Equilibrium(m, c, FIRST), Decay(m, c, h)) == 1.0
    ensures Relaxed(0.0, Equilibrium(m, c, x), Decay(m, c, h)) > 1.0
  {
    UsablePositive(m, c, FIRST);
    DoseAtUsableTime(m, c, FIRST);
    DecayRange(m, c, h);
    var e, f := Equilibrium(m, c, FIRST), Equilibrium(m, c, x);
    ScaleIncreasing(SourceRate(m, c, FIRST), SourceRate(m, c, x), c.tau);
    ScaleIncreasing(e, f, 1.0 - Decay(m, c, h));
  }

  // ----- soundness -----

  /** Currents of magnitude up to a positive cap, drawn within its horizon. */
  ghost predicate Draws(m: Functions, c: Config, s: State, limit: real, u: real, d: real, h: real, inputs: seq<Input>)
    requires m.Valid() && c.Valid()
  {
    && Coherent(c, s) && limit >= 0.0 && u >= 0.0 && d > 0.0 && h > 0.0 && Total(inputs) <= h
    && Cap(m, c, s, limit, u, d, h) > 0.0
    && forall k | 0 <= k < |inputs| ::
        && InputValid(inputs[k]) && inputs[k].uncertainty == u && InputDerating(c, inputs[k]) == d
        && Abs(inputs[k].current) <= Cap(m, c, s, limit, u, d, h)
  }

  ghost predicate CapsSound(m: Functions, c: Config)
    requires m.Valid() && c.Valid()
  {
    forall s, limit, u, d, h, inputs | Draws(m, c, s, limit, u, d, h, inputs) :: Run(m, c, s, inputs).utilization <= 1.0
  }

  lemma RoomTemperature(c: Config, i: Input)
    requires c.Valid() && i.atFuse && i.temperature == 25.0
    ensures InputDerating(c, i) == 1.0
  {
    assert DERATING[2] == Point(25.0, 1.00);
    assert DeratingAt(25.0) == DeratingFrom(25.0, 2);
    assert (25.0 - 0.0) / (25.0 - 0.0) == 1.0;
  }

  /** One draw of a faster current than the cap for 154 A was predicted with. */
  lemma MismatchBreaksSoundness(m: Functions, c: Config)
    requires m.Valid() && c.Valid() && !FitMeetsTable(m, c) && c.maxMultiple > 1.0
    ensures !CapsSound(m, c)
  {
    var x := MismatchBreaksOrder(m, c);
    UsableAtFirstPoint(m, c);
    var h := Usable(m, c, FIRST).s;
    FasterExceeds(m, c, x, h);
    var i := Input(x, 0.0, 25.0, h, true, true, true, true, true);
    RoomTemperature(c, i);
    UnitEquivalent(FIRST);
    assert Cap(m, c, INITIAL, FIRST, 0.0, 1.0, h) == FIRST;
    assert Effective(i) / InputDerating(c, i) == x;
    assert Total([i]) == h by { assert [i][1..] == []; }
    assert Draws(m, c, INITIAL, FIRST, 0.0, 1.0, h, [i]);
    assert Run(m, c, INITIAL, [i]) == Run(m, c, Advance(m, c, INITIAL, i), [i][1..]) == Advance(m, c, INITIAL, i);
    assert Run(m, c, INITIAL, [i]).utilization > 1.0;
  }

  /** Caps are sound, for every state, limit, horizon and draw, exactly when the fit meets the table or the clamp keeps
      the utilisation at 1 anyway. */
  lemma CapsSoundIffFitMeetsTable(m: Functions, c: Config)
    requires m.Valid() && c.Valid()
    ensures CapsSound(m, c) <==> FitMeetsTable(m, c) || c.maxMultiple == 1.0
  {
    if FitMeetsTable(m, c) || c.maxMultiple == 1.0 {
      forall s, limit, u, d, h, inputs | Draws(m, c, s, limit, u, d, h, inputs)
        ensures Run(m, c, s, inputs).utilization <= 1.0
      {
        if FitMeetsTable(m, c) { CapIsSound(m, c, s, limit, u, d, h, inputs); } else { RunCoherent(m, c, s, inputs); }
      }
    } else {
      MismatchBreaksSoundness(m, c);
    }
  }

  // ----- the table just before a current -----

  lemma FractionInside(m: Functions, x: real, x0: real, x1: real)
    requires m.Valid() && 0.0 < x0 < x <= x1
    ensures m.ln(x0) < m.ln(x1) && 0.0 < LogFraction(m, x, x0, x1) <= 1.0
    ensures m.ln(x) == m.ln(x0) + LogFraction(m, x, x0, x1) * (m.ln(x1) - m.ln(x0))
  {
    LnIncreasing(m, x0, x);
    if x < x1 { LnIncreasing(m, x, x1); }
    var n, w := m.ln(x) - m.ln(x0), m.ln(x1) - m.ln(x0);
    QuotientSign(n, w);
    QuotientMonotone(n, w, w);
    QuotientOfItself(w);
  }

  lemma FractionOfExp(m: Functions, g: real, x0: real, x1: real) returns (p: real)
    requires m.Valid() && 0.0 < x0 < x1 && 0.0 < g < 1.0
    ensures x0 < p < x1 && LogFraction(m, p, x0, x1) == g && m.ln(p) == m.ln(x0) + g * (m.ln(x1) - m.ln(x0))
  {
    LnIncreasing(m, x0, x1);
    var w := m.ln(x1) - m.ln(x0);
    var z := m.ln(x0) + g * w;
    ProductPositive(g, w);
    ProductPositive(1.0 - g, w);
    assert (1.0 - g) * w == w - g * w;
    p := m.exp(z);
    LnExp(m, z);
    ExpLn(m, x0);
    ExpLn(m, x1);
    ExpIncreasing(m, m.ln(x0), z);
    ExpIncreasing(m, z, m.ln(x1));
    assert (g * w) / w == g;
  }

  lemma LnBelow(m: Functions, z: real, y: real)
    requires m.Valid() && y > 0.0 && m.exp(z) < y
    ensures z < m.ln(y)
  {
    ExpLn(m, y);
    if m.ln(y) <= z { ExpMonotone(m, m.ln(y), z); }
  }

  /** A step back from f small enough for a line falling at this rate to gain less than the room. */
  lemma StepBack(f: real, fall: real, room: real) returns (g: real)
    requires f > 0.0 && fall > 0.0 && room > 0.0
    ensures 0.0 < g < f && (f - g) * fall < room
  {
    var step := room / (2.0 * fall);
    QuotientSign(room, 2.0 * fall);
    assert step * (2.0 * fall) == room;
    if step < f / 2.0 { g := f - step; } else { g := f / 2.0; ScaleMonotone(f / 2.0, step, fall); }
  }

  /** The interpolated time stays below a bound a little before a current at which it is below it. */
  lemma LogLerpBefore(m: Functions, x: real, x0: real, y0: real, x1: real, y1: real, bound: real) returns (p: real)
    requires m.Valid() && 0.0 < x0 < x <= x1 && 0.0 < y1 < y0 && LogLerp(m, x, x0, y0, x1, y1) < bound
    ensures x0 < p < x && LogLerp(m, p, x0, y0, x1, y1) < bound
  {
    FractionInside(m, x, x0, x1);
    LnIncreasing(m, y1, y0);
    var f, a, b := LogFraction(m, x, x0, x1), m.ln(y0), m.ln(y1);
    ExpPositive(m, Lift(a, f, b));
    LnBelow(m, Lift(a, f, b), bound);
    var g := StepBack(f, a - b, m.ln(bound) - Lift(a, f, b));
    p := FractionOfExp(m, g, x0, x1);
    assert Lift(a, g, b) == Lift(a, f, b) + (f - g) * (a - b);
    ExpIncreasing(m, Lift(a, g, b), m.ln(bound));
    ExpLn(m, bound);
    var w := m.ln(x1) - m.ln(x0);
    ScaleIncreasing(g, f, w);
    if x <= p { if x < p { LnIncreasing(m, x, p); } }
  }

  // ----- closeness -----

  const DOUBLE: real := 2.0 * FIRST

  /** The table is usable for the greatest time all the way to twice its first current. */
  predicate Plateau(m: Functions, c: Config)
    requires m.Valid()
  {
    Times(TableTime(m, DOUBLE, 1), c.fraction) >= c.maxTime
  }

  lemma TableAt308(m: Functions, x: real)
    requires m.Valid() && 300.8 < x <= 350.9
    ensures TableTime(m, x, 1) == LogLerp(m, x, 300.8, 2.0, 350.9, 1.0)
  {
    assert CURVE[7] == Point(300.8, 2.0) && CURVE[8] == Point(350.9, 1.0);
    assert TableTime(m, x, 1) == TableTime(m, x, 4);
    assert TableTime(m, x, 4) == TableTime(m, x, 7);
    assert TableTime(m, x, 7) == TableTime(m, x, 8);
  }

  /** What the table's first point and twice its current say of each other off the plateau. */
  lemma OffPlateau(m: Functions, c: Config)
    requires m.Valid() && c.Valid() && !FitMeetsTable(m, c) && !Plateau(m, c)
    ensures c.minTime < UsableOf(c, 100.0) && Times(TableTime(m, DOUBLE, 1), c.fraction) < UsableOf(c, 100.0)
  {
    TableAt308(m, DOUBLE);
    LogLerpAntitone(m, DOUBLE, DOUBLE, 300.8, 2.0, 350.9, 1.0);
    ScaleIncreasing(TableTime(m, DOUBLE, 1), 100.0, c.fraction);
  }

  lemma TableFaster(m: Functions, c: Config, p: real)
    requires m.Valid() && c.Valid() && c.minTime < UsableOf(c, 100.0) && FIRST < p <= CURVE[|CURVE| - 1].current
    requires Times(TableTime(m, p, 1), c.fraction) < UsableOf(c, 100.0)
    ensures SourceRate(m, c, p) > SourceRate(m, c, FIRST)
  {
    UsableAtFirstPoint(m, c);
    assert Usable(m, c, p) == Seconds(UsableOf(c, TableTime(m, p, 1)));
    var u, v := UsableOf(c, TableTime(m, p, 1)), UsableOf(c, 100.0);
    assert 0.0 < u < v;
    KernelIncreasing(m, c.tau, u, v);
    QuotientAntitone(Kernel(m, c.tau, u), Kernel(m, c.tau, v), 1.0);
  }

  lemma BoundByFraction(t: real, f: real, top: real)
    requires f > 0.0
    ensures Times(t, f) < top <==> t < top / f
  {
    var q := top / f;
    assert q * f == top;
    if t < q { ScaleIncreasing(t, q, f); } else { ScaleMonotone(q, t, f); }
  }

  /** Off the plateau some current before 308 A heats faster than 154 A does. */
  lemma FasterBeforeDouble(m: Functions, c: Config) returns (p: real)
    requires m.Valid() && c.Valid() && !FitMeetsTable(m, c) && !Plateau(m, c)
    ensures FIRST < p < DOUBLE && SourceRate(m, c, p) > SourceRate(m, c, FIRST)
  {
    OffPlateau(m, c);
    var bound := UsableOf(c, 100.0) / c.fraction;
    BoundByFraction(TableTime(m, DOUBLE, 1), c.fraction, UsableOf(c, 100.0));
    TableAt308(m, DOUBLE);
    p := LogLerpBefore(m, DOUBLE, 300.8, 2.0, 350.9, 1.0, bound);
    TableAt308(m, p);
    BoundByFraction(TableTime(m, p, 1), c.fraction, UsableOf(c, 100.0));
    TableFaster(m, c, p);
  }

  ghost predicate CapsClose(m: Functions, c: Config)
    requires m.Valid() && c.Valid()
  {
    forall s: State, limit: real, u: real, d: real, h: real, x: real |
      !s.exhausted && u >= 0.0 && d > 0.0 && h > 0.0 && 0.0 <= x <= limit && Predict(m, c, s.utilization, x, u, d, h) <= 1.0 ::
      x <= Cap(m, c, s, limit, u, d, h) + Width(limit, PROBES)
  }

  /** The final bracket lies within the first. */
  lemma {:induction false} BracketWithin(passes: real -> bool, lo: real, hi: real, n: nat)
    requires lo <= hi
    ensures Lower(passes, lo, hi, n) + Width(hi - lo, n) <= hi
    decreases n
  {
    if n > 0 {
      var mid := (lo + hi) / 2.0;
      assert hi - mid == (hi - lo) / 2.0 == mid - lo;
      if passes(mid) { BracketWithin(passes, mid, hi, n - 1); } else { BracketWithin(passes, lo, mid, n - 1); }
    }
  }

  lemma HalfFails(passes: real -> bool, limit: real, n: nat)
    requires limit > 0.0 && n > 0 && !passes(limit / 2.0)
    ensures Lower(passes, 0.0, limit, n) + Width(limit, n) <= limit / 2.0
  {
    BracketWithin(passes, 0.0, limit / 2.0, n - 1);
    assert (0.0 + limit) / 2.0 == limit / 2.0;
    assert limit / 2.0 - 0.0 == limit / 2.0;
  }

  /** A current below 154 A, no lower than half of p, that heats faster than 154 A does. */
  lemma FasterAbove(m: Functions, c: Config, p: real) returns (x: real)
    requires m.Valid() && c.Valid() && !FitMeetsTable(m, c) && p < DOUBLE
    ensures p / 2.0 <= x < FIRST && x > c.rated && SourceRate(m, c, x) > SourceRate(m, c, FIRST)
  {
    x := MismatchBreaksOrder(m, c);
    RateNonNegative(m, c, FIRST);
    assert x > c.rated;
    if x < p / 2.0 {
      var y := p / 2.0;
      OverloadMonotone(c, x, x);
      OverloadMonotone(c, y, y);
      FitUsableAntitone(m, c, x, y);
      assert LaterOrEqual(Usable(m, c, x), Usable(m, c, y));
      LaterIsSlower(m, c, x, y);
      x := y;
    }
  }

  /** With the first probe at the faster current the search ends below it, although 154 A is predicted to fit. */
  lemma MismatchBreaksCloseness(m: Functions, c: Config)
    requires m.Valid() && c.Valid() && !FitMeetsTable(m, c) && !Plateau(m, c)
    ensures !CapsClose(m, c)
  {
    var p := FasterBeforeDouble(m, c);
    var x := FasterAbove(m, c, p);
    UsableAtFirstPoint(m, c);
    var h := Usable(m, c, FIRST).s;
    FasterExceeds(m, c, x, h);
    FasterExceeds(m, c, p, h);
    var u, limit := 2.0 * x - p, 2.0 * (p - x);
    var y := FIRST - u;
    assert Equivalent(limit / 2.0, u, 1.0) == x && Equivalent(limit, u, 1.0) == p && Equivalent(y, u, 1.0) == FIRST;
    HalfFails(Fits(m, c, 0.0, u, 1.0, h), limit, PROBES);
    assert Predict(m, c, INITIAL.utilization, y, u, 1.0, h) <= 1.0;
    assert y > Cap(m, c, INITIAL, limit, u, 1.0, h) + Width(limit, PROBES);
  }

  ghost predicate PassesBetween(p: real -> bool, lo: real, hi: real) {
    forall z: real | lo <= z < hi :: p(z)
  }

  /** A search whose test is closed from split on, and passes from there to e: close, provided every probe that matters
      lies at split or above. */
  lemma {:induction false} CloseAboveSplit(p: real -> bool, lo: real, hi: real, n: nat, x: real, split: real, e: real)
    requires lo <= x <= hi && p(x) && !p(hi) && split <= hi && 2.0 * split <= lo + e
    requires DownwardClosed(p, split, hi) && PassesBetween(p, split, e)
    ensures x <= Lower(p, lo, hi, n) + Width(hi - lo, n)
    decreases n
  {
    if n > 0 {
      var mid := (lo + hi) / 2.0;
      assert hi - mid == (hi - lo) / 2.0 == mid - lo;
      assert e <= hi by { assert hi < e ==> p(hi); }
      if p(mid) {
        LowerIsClose(p, mid, hi, n - 1, if mid <= x then x else mid);
      } else {
        CloseAboveSplit(p, lo, mid, n - 1, x, split, e);
      }
    }
  }

  lemma PredictByRate(m: Functions, c: Config, w: real, x: real, y: real, u: real, d: real, h: real)
    requires m.Valid() && c.Valid() && d > 0.0 && h > 0.0
    requires SourceRate(m, c, Equivalent(x, u, d)) <= SourceRate(m, c, Equivalent(y, u, d))
    ensures Predict(m, c, w, x, u, d, h) <= Predict(m, c, w, y, u, d, h)
  {
    ScaleMonotone(SourceRate(m, c, Equivalent(x, u, d)), SourceRate(m, c, Equivalent(y, u, d)), c.tau);
    DecayRange(m, c, h);
    RelaxedMonotone(w, w, Equilibrium(m, c, Equivalent(x, u, d)), Equilibrium(m, c, Equivalent(y, u, d)), Decay(m, c, h));
  }

  lemma RateBelowFirst(m: Functions, c: Config, x: real, y: real)
    requires m.Valid() && c.Valid() && 0.0 <= x <= y < FIRST
    ensures SourceRate(m, c, x) <= SourceRate(m, c, y)
  {
    if c.rated < x {
      OverloadMonotone(c, x, y);
      OverloadMonotone(c, y, y);
      FitUsableAntitone(m, c, x, y);
    }
    LaterIsSlower(m, c, x, y);
  }

  lemma RateAboveFirst(m: Functions, c: Config, x: real, y: real)
    requires m.Valid() && c.Valid() && FIRST <= x <= y
    ensures SourceRate(m, c, x) <= SourceRate(m, c, y)
  {
    TableUsableAntitone(m, c, x, y);
    LaterIsSlower(m, c, x, y);
  }

  lemma RateOnPlateau(m: Functions, c: Config, x: real)
    requires m.Valid() && c.Valid() && Plateau(m, c) && FIRST <= x < DOUBLE
    ensures SourceRate(m, c, x) == SourceRate(m, c, FIRST)
  {
    TableAntitone(m, x, DOUBLE, 1);
    TableAntitone(m, FIRST, DOUBLE, 1);
    ScaleMonotone(TableTime(m, DOUBLE, 1), TableTime(m, x, 1), c.fraction);
    ScaleMonotone(TableTime(m, DOUBLE, 1), TableTime(m, FIRST, 1), c.fraction);
    assert Usable(m, c, x) == Seconds(c.maxTime) == Usable(m, c, FIRST);
  }

  /** The candidate whose equivalent current is this. */
  function Candidate(level: real, u: real, d: real): real { Times(level, d) - u }

  lemma EquivalentReaches(x: real, u: real, d: real, level: real)
    requires x >= 0.0 && u >= 0.0 && d > 0.0
    ensures Equivalent(x, u, d) >= level <==> x >= Candidate(level, u, d)
    ensures Equivalent(x, u, d) >= 0.0
  {
    QuotientCompare(x + u, level, d);
    QuotientSign(x + u, d);
  }

  lemma EquivalentGrows(x: real, y: real, u: real, d: real)
    requires 0.0 <= x <= y && u >= 0.0 && d > 0.0
    ensures 0.0 <= Equivalent(x, u, d) <= Equivalent(y, u, d)
  {
    QuotientSign(x + u, d);
    QuotientMonotone(x + u, y + u, d);
  }

  /** Candidates on one side of 154 A are predicted in order. */
  lemma ClosedOnOneSide(m: Functions, c: Config, w: real, u: real, d: real, h: real, lo: real, hi: real)
    requires m.Valid() && c.Valid() && u >= 0.0 && d > 0.0 && h > 0.0 && lo >= 0.0
    requires Equivalent(lo, u, d) >= FIRST || Equivalent(hi, u, d) < FIRST
    ensures DownwardClosed(Fits(m, c, w, u, d, h), lo, hi)
  {
    var fits := Fits(m, c, w, u, d, h);
    forall x: real, y: real | lo <= x <= y <= hi && fits(y) ensures fits(x) {
      EquivalentGrows(lo, x, u, d);
      EquivalentGrows(x, y, u, d);
      EquivalentGrows(y, hi, u, d);
      if Equivalent(lo, u, d) >= FIRST { RateAboveFirst(m, c, Equivalent(x, u, d), Equivalent(y, u, d)); }
      else { RateBelowFirst(m, c, Equivalent(x, u, d), Equivalent(y, u, d)); }
      PredictByRate(m, c, w, x, y, u, d, h);
    }
  }

  lemma FitsBelowFailingSplit(m: Functions, c: Config, w: real, u: real, d: real, h: real, y: real)
    requires m.Valid() && c.Valid() && u >= 0.0 && d > 0.0 && h > 0.0 && y >= 0.0 && 0.0 < Candidate(FIRST, u, d)
    requires !Fits(m, c, w, u, d, h)(Candidate(FIRST, u, d)) && Fits(m, c, w, u, d, h)(y)
    ensures Equivalent(y, u, d) < FIRST
  {
    var split := Candidate(FIRST, u, d);
    EquivalentReaches(split, u, d, FIRST);
    EquivalentReaches(y, u, d, FIRST);
    if split <= y { ClosedOnOneSide(m, c, w, u, d, h, split, y); }
  }

  lemma ClosedWhenSplitFails(m: Functions, c: Config, w: real, u: real, d: real, h: real, limit: real)
    requires m.Valid() && c.Valid() && u >= 0.0 && d > 0.0 && h > 0.0 && 0.0 < Candidate(FIRST, u, d)
    requires !Fits(m, c, w, u, d, h)(Candidate(FIRST, u, d))
    ensures DownwardClosed(Fits(m, c, w, u, d, h), 0.0, limit)
  {
    var fits := Fits(m, c, w, u, d, h);
    forall x: real, y: real | 0.0 <= x <= y <= limit && fits(y) ensures fits(x) {
      FitsBelowFailingSplit(m, c, w, u, d, h, y);
      ClosedOnOneSide(m, c, w, u, d, h, 0.0, y);
    }
  }

  lemma OnPlateau(z: real, u: real, d: real)
    requires u >= 0.0 && d > 0.0 && 0.0 <= z && Candidate(FIRST, u, d) <= z < Candidate(DOUBLE, u, d)
    ensures FIRST <= Equivalent(z, u, d) < DOUBLE
  {
    EquivalentReaches(z, u, d, FIRST);
    EquivalentReaches(z, u, d, DOUBLE);
  }

  lemma CandidatesAscend(u: real, d: real)
    requires u >= 0.0 && d > 0.0
    ensures Candidate(FIRST, u, d) < Candidate(DOUBLE, u, d) && 2.0 * Candidate(FIRST, u, d) <= Candidate(DOUBLE, u, d)
  {
    ScaleIncreasing(FIRST, DOUBLE, d);
    assert DOUBLE * d == 2.0 * (FIRST * d);
  }

  lemma PassesOnPlateau(m: Functions, c: Config, w: real, u: real, d: real, h: real, z: real)
    requires m.Valid() && c.Valid() && Plateau(m, c) && u >= 0.0 && d > 0.0 && h > 0.0 && 0.0 < Candidate(FIRST, u, d)
    requires Fits(m, c, w, u, d, h)(Candidate(FIRST, u, d)) && Candidate(FIRST, u, d) <= z < Candidate(DOUBLE, u, d)
    ensures Fits(m, c, w, u, d, h)(z)
  {
    var split := Candidate(FIRST, u, d);
    CandidatesAscend(u, d);
    OnPlateau(split, u, d);
    OnPlateau(z, u, d);
    RateOnPlateau(m, c, Equivalent(z, u, d));
    RateOnPlateau(m, c, Equivalent(split, u, d));
    PredictByRate(m, c, w, z, split, u, d, h);
  }

  lemma PassesAlongPlateau(m: Functions, c: Config, w: real, u: real, d: real, h: real, limit: real)
    requires m.Valid() && c.Valid() && Plateau(m, c) && u >= 0.0 && d > 0.0 && h > 0.0 && 0.0 < Candidate(FIRST, u, d)
    requires Fits(m, c, w, u, d, h)(Candidate(FIRST, u, d))
    ensures PassesBetween(Fits(m, c, w, u, d, h), Candidate(FIRST, u, d), Candidate(DOUBLE, u, d))
    ensures DownwardClosed(Fits(m, c, w, u, d, h), Candidate(FIRST, u, d), limit)
  {
    var fits, split := Fits(m, c, w, u, d, h), Candidate(FIRST, u, d);
    forall z: real | split <= z < Candidate(DOUBLE, u, d) ensures fits(z) { PassesOnPlateau(m, c, w, u, d, h, z); }
    EquivalentReaches(split, u, d, FIRST);
    ClosedOnOneSide(m, c, w, u, d, h, split, limit);
  }

  /** Where 154 A fits, on the plateau, no probe that matters lies below it. */
  lemma CloseWhenSplitFits(m: Functions, c: Config, w: real, limit: real, u: real, d: real, h: real, x: real)
    requires m.Valid() && c.Valid() && Plateau(m, c) && u >= 0.0 && d > 0.0 && h > 0.0
    requires 0.0 < Candidate(FIRST, u, d) <= limit && Fits(m, c, w, u, d, h)(Candidate(FIRST, u, d))
    requires 0.0 <= x <= limit && Fits(m, c, w, u, d, h)(x) && !Fits(m, c, w, u, d, h)(limit)
    ensures x <= Lower(Fits(m, c, w, u, d, h), 0.0, limit, PROBES) + Width(limit, PROBES)
  {
    PassesAlongPlateau(m, c, w, u, d, h, limit);
    CandidatesAscend(u, d);
    CloseFromZero(Fits(m, c, w, u, d, h), limit, PROBES, x, Candidate(FIRST, u, d), Candidate(DOUBLE, u, d));
  }

  lemma CloseFromZero(p: real -> bool, limit: real, n: nat, x: real, split: real, e: real)
    requires 0.0 <= x <= limit && p(x) && !p(limit) && split <= limit && 2.0 * split <= e
    requires DownwardClosed(p, split, limit) && PassesBetween(p, split, e)
    ensures x <= Lower(p, 0.0, limit, n) + Width(limit, n)
  {
    assert limit - 0.0 == limit;
    CloseAboveSplit(p, 0.0, limit, n, x, split, e);
  }

  lemma PlateauIsClose(m: Functions, c: Config, w: real, limit: real, u: real, d: real, h: real, x: real)
    requires m.Valid() && c.Valid() && Plateau(m, c) && u >= 0.0 && d > 0.0 && h > 0.0 && limit > 0.0
    requires 0.0 <= x <= limit && Fits(m, c, w, u, d, h)(x) && !Fits(m, c, w, u, d, h)(limit)
    ensures x <= Lower(Fits(m, c, w, u, d, h), 0.0, limit, PROBES) + Width(limit, PROBES)
  {
    var fits, split := Fits(m, c, w, u, d, h), Candidate(FIRST, u, d);
    if 0.0 < split <= limit && fits(split) {
      CloseWhenSplitFits(m, c, w, limit, u, d, h, x);
    } else {
      if 0.0 < split <= limit {
        ClosedWhenSplitFails(m, c, w, u, d, h, limit);
      } else {
        EquivalentReaches(0.0, u, d, FIRST);
        EquivalentReaches(limit, u, d, FIRST);
        ClosedOnOneSide(m, c, w, u, d, h, 0.0, limit);
      }
      PassingIsClose(fits, limit, PROBES, x);
    }
  }

  lemma PlateauCapIsClose(m: Functions, c: Config, s: State, limit: real, u: real, d: real, h: real, x: real)
    requires m.Valid() && c.Valid() && Plateau(m, c) && u >= 0.0 && d > 0.0 && h > 0.0
    requires !s.exhausted && 0.0 <= x <= limit && Predict(m, c, s.utilization, x, u, d, h) <= 1.0
    ensures x <= Cap(m, c, s, limit, u, d, h) + Width(limit, PROBES)
  {
    WidthNonNegative(limit, PROBES);
    if limit > 0.0 && !Fits(m, c, s.utilization, u, d, h)(limit) {
      PlateauIsClose(m, c, s.utilization, limit, u, d, h, x);
    }
  }

  /** Caps come within the final bracket of the greatest feasible current, in every situation, exactly when the fit meets
      the table at 154 A or the table is usable for the greatest time all the way to 308 A. */
  lemma CapsCloseIff(m: Functions, c: Config)
    requires m.Valid() && c.Valid()
    ensures CapsClose(m, c) <==> FitMeetsTable(m, c) || Plateau(m, c)
  {
    if FitMeetsTable(m, c) || Plateau(m, c) {
      forall s: State, limit: real, u: real, d: real, h: real, x: real |
        !s.exhausted && u >= 0.0 && d > 0.0 && h > 0.0 && 0.0 <= x <= limit && Predict(m, c, s.utilization, x, u, d, h) <= 1.0
        ensures x <= Cap(m, c, s, limit, u, d, h) + Width(limit, PROBES)
      {
        if FitMeetsTable(m, c) { CapIsClose(m, c, s, limit, u, d, h, x); } else { PlateauCapIsClose(m, c, s, limit, u, d, h, x); }
      }
    } else {
      MismatchBreaksCloseness(m, c);
    }
  }

  // ----- a configuration that falls short -----

  /** The checks of a configuration do not imply any of these conditions. */
  lemma ValidConfigMayFallShort(m: Functions) returns (c: Config)
    requires m.Valid()
    ensures c.Valid() && !FitMeetsTable(m, c) && !Plateau(m, c) && c.maxMultiple > 1.0
  {
    var over := FIRST / 80.0 - 1.0;
    var pow := Pow(m, over, -1.0);
    ExpPositive(m, Times(-1.0, m.ln(over)));
    QuotientSign(1.0, pow);
    c := Config(80.0, 1.0, 1.0, 0.0, 0.0, 0.0, 1.0, 2.0, 1.0 / pow, 1.0, 1000.0, 0.001,
                [1.0, 1.0, 1.0, 1.0], [0.0, 0.0, 0.0, 0.0], [0.0, 0.0, 0.0, 0.0]);
    assert FitRaw(m, c, over) == 1.0;
    assert UsableOf(c, FitAtTable(m, c)) == 1.0 && UsableOf(c, CURVE[0].time) == 100.0;
    TableAt308(m, DOUBLE);
    LogLerpAntitone(m, DOUBLE, DOUBLE, 300.8, 2.0, 350.9, 1.0);
  }
}
