/** What an evaluation does not depend on: charge and polarisation after a run are those of a single step over
    the elapsed time, however the schedule cuts it. */
module SopExact {
  import opened Elementary
  import opened SopSchedule
  import opened SopModel

  lemma SocComposes(soc: real, x: real, t: real, u: real, capacity: real)
    requires capacity > 0.0
    ensures SocAfter(SocAfter(soc, x, t, capacity), x, u, capacity) == SocAfter(soc, x, t + u, capacity)
  {
    assert x * (t + u) == x * t + x * u;
    assert x * (t + u) / capacity == x * t / capacity + x * u / capacity;
  }

  lemma RelaxedComposes(a: real, b: real, v: real, r: real, x: real)
    ensures Relaxed(b, Relaxed(a, v, r, x), r, x) == Relaxed(a * b, v, r, x)
  {
    var y := r * x;
    assert Relaxed(a, v, r, x) == a * v + (1.0 - a) * y;
    assert Relaxed(a * b, v, r, x) == (a * b) * v + (1.0 - a * b) * y;
    assert b * (a * v + (1.0 - a) * y) + (1.0 - b) * y == (a * b) * v + (1.0 - a * b) * y;
  }

  lemma DecayComposes(m: Functions, t: real, u: real, tau: real)
    requires m.Valid() && tau > 0.0
    ensures Decay(m, t + u, tau) == Decay(m, t, tau) * Decay(m, u, tau) && Decay(m, 0.0, tau) == 1.0
  {
    assert -(t + u) / tau == -t / tau + -u / tau;
    ExpAdd(m, -t / tau, -u / tau);
    ExpZero(m);
    assert -0.0 / tau == 0.0;
  }

  /** The elapsed time after the first k steps. */
  function Elapsed(dts: seq<real>, k: nat): real
    requires k <= |dts|
    decreases k
  {
    if k == 0 then 0.0 else dts[0] + Elapsed(dts[1..], k - 1)
  }

  /** One step of length t in charge and polarisation alone. */
  ghost predicate Reached(w: Case, s: Segment, r: Segment, t: real)
    requires w.c.Valid() && s.Valid()
  {
    && r.soc == SocAfter(s.soc, w.x, t, s.capacity)
    && r.vp1 == Relaxed(Decay(w.m, t, s.tau1), s.vp1, s.r1, w.x)
    && r.vp2 == Relaxed(Decay(w.m, t, SecondTau(w.c)), s.vp2, w.c.r2, w.x)
    && r == s.(soc := r.soc, vp1 := r.vp1, vp2 := r.vp2, core := r.core, surface := r.surface)
  }

  lemma ReachedAtOnce(w: Case, s: Segment)
    requires w.m.Valid() && w.c.Valid() && s.Valid()
    ensures Reached(w, s, s, 0.0)
  {
    DecayComposes(w.m, 0.0, 0.0, s.tau1);
    DecayComposes(w.m, 0.0, 0.0, SecondTau(w.c));
    assert w.x * 0.0 / s.capacity == 0.0;
  }

  lemma ReachedLater(w: Case, s: Segment, a: Segment, r: Segment, t: real, u: real)
    requires w.m.Valid() && w.c.Valid() && s.Valid() && Reached(w, s, a, t) && Reached(w, a, r, u)
    ensures Reached(w, s, r, t + u)
  {
    SocComposes(s.soc, w.x, t, u, s.capacity);
    DecayComposes(w.m, t, u, s.tau1);
    DecayComposes(w.m, t, u, SecondTau(w.c));
    RelaxedComposes(Decay(w.m, t, s.tau1), Decay(w.m, u, s.tau1), s.vp1, s.r1, w.x);
    RelaxedComposes(Decay(w.m, t, SecondTau(w.c)), Decay(w.m, u, SecondTau(w.c)), s.vp2, w.c.r2, w.x);
  }

  /** After any schedule a segment's charge is its start less the current times the elapsed time over the capacity,
      and its polarisation is the exact exponential response; no constant of the segment changes. */
  lemma {:induction false} ScheduleDoesNotMatter(w: Case, segs: Segments, dts: seq<real>, k: nat, i: nat)
    requires w.m.Valid() && w.c.Valid() && AllValid(segs) && AllPositive(dts) && k <= |dts| && i < |segs|
    ensures Reached(w, segs[i], StateAt(w, segs, dts, k)[i], Elapsed(dts, k))
    decreases k
  {
    if k == 0 {
      ReachedAtOnce(w, segs[i]);
    } else {
      var next := AdvanceAll(w, segs, dts[0]);
      assert next[i] == Advance(w, segs[i], dts[0]);
      ScheduleDoesNotMatter(w, next, dts[1..], k - 1, i);
      ReachedLater(w, segs[i], next[i], StateAt(w, segs, dts, k)[i], dts[0], Elapsed(dts[1..], k - 1));
    }
  }

  /** The elapsed time is the time the schedule keeps. */
  lemma {:induction false} ElapsedIsTime(start: real, dts: seq<real>, k: nat)
    requires k <= |dts|
    ensures TimeAt(start, dts, k) == start + Elapsed(dts, k)
    decreases k
  {
    if k > 0 { ElapsedIsTime(start + dts[0], dts[1..], k - 1); }
  }
}
