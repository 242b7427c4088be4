/** The adaptive step schedule of the State-of-Power predictor (_step_size and the loop that uses it). */
module SopSchedule {
  import opened Reals

  datatype Steps = Steps(fine: real, medium: real, coarse: real)
  {
    predicate Valid() { fine > 0.0 && medium > 0.0 && coarse > 0.0 }

    function Least(): real { Min(fine, Min(medium, coarse)) }

    function Greatest(): real { -Min(-fine, Min(-medium, -coarse)) }
  }

  const TOLERANCE: real := 0.000001

  function Min(a: real, b: real): real { if b < a then b else a }

  function Nominal(s: Steps, elapsed: real): real {
    if elapsed < 1.0 then s.fine else if elapsed < 10.0 then s.medium else s.coarse
  }

  function Boundary(elapsed: real, horizon: real): real {
    if elapsed < 1.0 then 1.0 else if elapsed < 10.0 then 10.0 else horizon
  }

  function StepSize(s: Steps, elapsed: real, horizon: real): real {
    var step := Min(Nominal(s, elapsed), horizon - elapsed);
    var boundary := Boundary(elapsed, horizon);
    if boundary > elapsed then Min(step, boundary - elapsed) else step
  }

  // ----- termination -----

  function Ahead(elapsed: real): nat {
    if elapsed < 1.0 then 2 else if elapsed < 10.0 then 1 else 0
  }

  /** Bounds the steps left: whole least steps, boundaries ahead, and a last partial step. */
  function StepsLeft(s: Steps, elapsed: real, horizon: real): (n: int)
    requires s.Valid()
    ensures elapsed <= horizon ==> n >= 0
  {
    if elapsed < horizon - TOLERANCE then
      QuotientSign(horizon - elapsed, s.Least());
      ((horizon - elapsed) / s.Least()).Floor + Ahead(elapsed) + 1
    else 0
  }

  lemma FloorDrops(x: real, y: real, m: real)
    requires m > 0.0 && x <= y
    ensures (x / m).Floor <= (y / m).Floor
    ensures x + m <= y ==> (x / m).Floor + 1 <= (y / m).Floor
  {
    QuotientMonotone(x, y, m);
    if x + m <= y {
      QuotientMonotone(x + m, y, m);
      QuotientOfItself(m);
      assert (x + m) / m == x / m + m / m;
    }
  }

  lemma StepMakesProgress(s: Steps, elapsed: real, horizon: real)
    requires s.Valid() && elapsed < horizon - TOLERANCE
    ensures var dt := StepSize(s, elapsed, horizon);
      && 0.0 < dt <= horizon - elapsed && dt <= s.Greatest()
      && 0 <= StepsLeft(s, elapsed + dt, horizon) < StepsLeft(s, elapsed, horizon)
  {
    var dt := StepSize(s, elapsed, horizon);
    if dt < horizon - elapsed {
      FloorDrops(horizon - (elapsed + dt), horizon - elapsed, s.Least());
    }
  }

  /** The step sizes the loop takes from elapsed on. */
  function Schedule(s: Steps, elapsed: real, horizon: real): seq<real>
    requires s.Valid()
    decreases StepsLeft(s, elapsed, horizon)
  {
    if elapsed < horizon - TOLERANCE then
      StepMakesProgress(s, elapsed, horizon);
      var dt := StepSize(s, elapsed, horizon);
      [dt] + Schedule(s, elapsed + dt, horizon)
    else []
  }

  // ----- what the schedule promises -----

  /** The time after the first k steps. */
  function TimeAt(start: real, dts: seq<real>, k: nat): real
    requires k <= |dts|
    decreases k
  {
    if k == 0 then start else TimeAt(start + dts[0], dts[1..], k - 1)
  }

  ghost predicate Crosses(from: real, to: real, boundary: real) { from < boundary < to }

  /** The steps are positive, none crosses 1 s or 10 s or is longer than the longest nominal step, and
      together they reach the horizon to within the tolerance without passing it. */
  lemma {:induction false} ScheduleReachesHorizon(s: Steps, elapsed: real, horizon: real)
    requires s.Valid() && elapsed <= horizon
    ensures var dts := Schedule(s, elapsed, horizon);
      && horizon - TOLERANCE <= TimeAt(elapsed, dts, |dts|) <= horizon
      && forall k | 0 <= k < |dts| ::
           && 0.0 < dts[k] <= s.Greatest() && TimeAt(elapsed, dts, k + 1) == TimeAt(elapsed, dts, k) + dts[k]
           && !Crosses(TimeAt(elapsed, dts, k), TimeAt(elapsed, dts, k + 1), 1.0)
           && !Crosses(TimeAt(elapsed, dts, k), TimeAt(elapsed, dts, k + 1), 10.0)
    decreases StepsLeft(s, elapsed, horizon)
  {
    if elapsed < horizon - TOLERANCE {
      StepMakesProgress(s, elapsed, horizon);
      var dt := StepSize(s, elapsed, horizon);
      var rest, dts := Schedule(s, elapsed + dt, horizon), Schedule(s, elapsed, horizon);
      ScheduleReachesHorizon(s, elapsed + dt, horizon);
      assert dts[1..] == rest;
      forall k | 0 <= k < |dts|
        ensures 0.0 < dts[k] <= s.Greatest() && TimeAt(elapsed, dts, k + 1) == TimeAt(elapsed, dts, k) + dts[k]
             && !Crosses(TimeAt(elapsed, dts, k), TimeAt(elapsed, dts, k + 1), 1.0)
             && !Crosses(TimeAt(elapsed, dts, k), TimeAt(elapsed, dts, k + 1), 10.0)
      {
        if k == 0 {
          assert TimeAt(elapsed, dts, 1) == TimeAt(elapsed + dt, rest, 0);
        } else {
          assert dts[k] == rest[k - 1];
          assert TimeAt(elapsed, dts, k + 1) == TimeAt(elapsed + dt, rest, k);
        }
      }
    }
  }

  /** The step is the greatest that passes neither the horizon nor, before 1 s and before 10 s, the nominal length and the end
      of its phase; from 10 s on only the nominal length. */
  lemma StepIsGreatest(s: Steps, elapsed: real, horizon: real, d: real)
    requires s.Valid() && elapsed < horizon - TOLERANCE
    ensures d <= StepSize(s, elapsed, horizon) <==>
      && d <= horizon - elapsed
      && (elapsed < 1.0 ==> d <= s.fine && d <= 1.0 - elapsed)
      && (1.0 <= elapsed < 10.0 ==> d <= s.medium && d <= 10.0 - elapsed)
      && (elapsed >= 10.0 ==> d <= s.coarse)
  {
  }

  // ----- shorter and longer horizons -----

  /** The step the loop would take with no horizon in sight. */
  function FreeStep(s: Steps, elapsed: real): real {
    if elapsed < 10.0 then Min(Nominal(s, elapsed), Boundary(elapsed, 10.0) - elapsed) else s.coarse
  }

  /** The horizon never cuts a step short: it lies on the grid of free steps. */
  predicate Aligned(s: Steps, elapsed: real, horizon: real)
    requires s.Valid()
    decreases StepsLeft(s, elapsed, horizon)
  {
    if elapsed < horizon - TOLERANCE then
      StepMakesProgress(s, elapsed, horizon);
      elapsed + FreeStep(s, elapsed) <= horizon && Aligned(s, elapsed + FreeStep(s, elapsed), horizon)
    else true
  }

  lemma StepIsFreeOrLast(s: Steps, elapsed: real, horizon: real)
    requires s.Valid() && elapsed < horizon
    ensures StepSize(s, elapsed, horizon) == Min(FreeStep(s, elapsed), horizon - elapsed)
  {
  }

  lemma PrefixOfCons<T>(x: T, r: seq<T>, y: T, t: seq<T>)
    ensures [x] + r <= [y] + t <==> x == y && r <= t
  {
    assert ([x] + r)[1..] == r && ([y] + t)[1..] == t;
    if [x] + r <= [y] + t {
      assert ([x] + r)[0] == ([y] + t)[0];
      assert ([y] + t)[..|r| + 1][1..] == t[..|r|];
    }
  }

  /** The schedule of a shorter horizon is a prefix of that of a longer one exactly when the shorter
      horizon is on the step grid. */
  lemma {:induction false} PrefixIffAligned(s: Steps, elapsed: real, shorter: real, longer: real)
    requires s.Valid() && shorter < longer
    ensures Schedule(s, elapsed, shorter) <= Schedule(s, elapsed, longer) <==> Aligned(s, elapsed, shorter)
    decreases StepsLeft(s, elapsed, shorter)
  {
    if elapsed < shorter - TOLERANCE {
      StepMakesProgress(s, elapsed, shorter);
      StepIsFreeOrLast(s, elapsed, shorter);
      StepIsFreeOrLast(s, elapsed, longer);
      var a, b := StepSize(s, elapsed, shorter), StepSize(s, elapsed, longer);
      PrefixOfCons(a, Schedule(s, elapsed + a, shorter), b, Schedule(s, elapsed + b, longer));
      if elapsed + FreeStep(s, elapsed) <= shorter {
        PrefixIffAligned(s, elapsed + a, shorter, longer);
      }
    }
  }

  const DEFAULT_STEPS: Steps := Steps(0.1, 0.5, 1.0)

  lemma {:induction false} CoarseAligned(k: nat)
    requires k <= 20
    ensures Aligned(DEFAULT_STEPS, 10.0 + k as real, 30.0)
    decreases 20 - k
  {
    if k < 20 { CoarseAligned(k + 1); }
  }

  lemma {:induction false} MediumAligned(k: nat, horizon: real)
    requires k <= 18 && (horizon == 10.0 || horizon == 30.0)
    ensures Aligned(DEFAULT_STEPS, 1.0 + k as real / 2.0, horizon)
    decreases 18 - k
  {
    if k < 18 { MediumAligned(k + 1, horizon); } else { CoarseAligned(0); }
  }

  lemma {:induction false} FineAligned(k: nat, horizon: real)
    requires k <= 10 && (horizon == 1.0 || horizon == 10.0 || horizon == 30.0)
    ensures Aligned(DEFAULT_STEPS, k as real / 10.0, horizon)
    decreases 10 - k
  {
    if k < 10 { FineAligned(k + 1, horizon); } else { MediumAligned(0, if horizon == 30.0 then 30.0 else 10.0); }
  }

  /** The published horizons are all on the grid of the configured steps. */
  lemma PublishedHorizonsAligned()
    ensures Aligned(DEFAULT_STEPS, 0.0, 0.1) && Aligned(DEFAULT_STEPS, 0.0, 1.0)
    ensures Aligned(DEFAULT_STEPS, 0.0, 10.0) && Aligned(DEFAULT_STEPS, 0.0, 30.0)
  {
    FineAligned(0, 1.0);
    FineAligned(0, 10.0);
    FineAligned(0, 30.0);
    assert FreeStep(DEFAULT_STEPS, 0.0) == 0.1;
  }
}
