/** Whole runs of the consumer: advisory frames never touch the core, and a clean bundle that opens its own stage
    completes in any frame order. */
module PowerRuns {
  import opened Ticks
  import opened PowerFrames
  import opened PowerConsumer

  predicate IsCore(f: Frame) { KindOf(f.id).CoreFrame? }

  predicate IsAdvisory(f: Frame) { KindOf(f.id).StrategyFrame? || KindOf(f.id).BindingsFrame? }

  function SlotOf(f: Frame): (s: nat)
    requires IsCore(f)
    ensures s < 4
  {
    KindOf(f.id).slot
  }

  function Run(s: State, frames: seq<Frame>): (r: State)
    requires WellFormed(s.core)
    ensures WellFormed(r.core)
    decreases |frames|
  {
    if frames == [] then s else Next(Run(s, frames[..|frames| - 1]), frames[|frames| - 1])
  }

  predicate AllCore(frames: seq<Frame>) { forall k | 0 <= k < |frames| :: IsCore(frames[k]) }

  function RunCore(c: Core, frames: seq<Frame>): (r: Core)
    requires WellFormed(c) && AllCore(frames)
    ensures WellFormed(r)
    decreases |frames|
  {
    if frames == [] then c
    else
      var last := frames[|frames| - 1];
      CoreNext(RunCore(c, frames[..|frames| - 1]), SlotOf(last), last)
  }

  /** The core frames of a history, in order. */
  function CoreOnly(frames: seq<Frame>): (r: seq<Frame>)
    ensures AllCore(r)
    decreases |frames|
  {
    if frames == [] then []
    else
      var rest, last := CoreOnly(frames[..|frames| - 1]), frames[|frames| - 1];
      if IsCore(last) then rest + [last] else rest
  }

  function WithoutAdvisory(frames: seq<Frame>): seq<Frame>
    decreases |frames|
  {
    if frames == [] then []
    else
      var rest, last := WithoutAdvisory(frames[..|frames| - 1]), frames[|frames| - 1];
      if IsAdvisory(last) then rest else rest + [last]
  }

  // ----- non-interference -----

  lemma {:induction false} CoreDependsOnCoreFrames(s: State, frames: seq<Frame>)
    requires WellFormed(s.core)
    ensures Run(s, frames).core == RunCore(s.core, CoreOnly(frames))
    decreases |frames|
  {
    if frames != [] {
      var init, last := frames[..|frames| - 1], frames[|frames| - 1];
      CoreDependsOnCoreFrames(s, init);
      if IsCore(last) {
        var r := CoreOnly(init) + [last];
        assert r[..|r| - 1] == CoreOnly(init);
      }
    }
  }

  lemma CoreOnlyGrows(frames: seq<Frame>, f: Frame)
    ensures CoreOnly(frames + [f]) == if IsCore(f) then CoreOnly(frames) + [f] else CoreOnly(frames)
  {
    assert (frames + [f])[..|frames + [f]| - 1] == frames;
  }

  lemma {:induction false} CoreOnlySkipsAdvisory(frames: seq<Frame>)
    ensures CoreOnly(WithoutAdvisory(frames)) == CoreOnly(frames)
    decreases |frames|
  {
    if frames != [] {
      var init, last := frames[..|frames| - 1], frames[|frames| - 1];
      CoreOnlySkipsAdvisory(init);
      if !IsAdvisory(last) { CoreOnlyGrows(WithoutAdvisory(init), last); }
    }
  }

  /** Deleting every advisory frame, good or corrupt, leaves the core state and every authority answer
      as they were. */
  lemma AdvisoryNeverInterferes(s: State, frames: seq<Frame>, now: U32)
    requires WellFormed(s.core)
    ensures Run(s, frames).core == Run(s, WithoutAdvisory(frames)).core
    ensures ImmediateAnswer(Run(s, frames).core, now) == ImmediateAnswer(Run(s, WithoutAdvisory(frames)).core, now)
  {
    CoreDependsOnCoreFrames(s, frames);
    CoreDependsOnCoreFrames(s, WithoutAdvisory(frames));
    CoreOnlySkipsAdvisory(frames);
  }

  // ----- stages and bundles as frames -----

  predicate DistinctSlots(es: seq<Frame>)
    requires AllCore(es)
  {
    forall j, k | 0 <= j < k < |es| :: SlotOf(es[j]) != SlotOf(es[k])
  }

  predicate BelongsTo(f: Frame, counter: nat, started: U32) {
    FrameVerdict(f) == Good && Counter(f.payload) == counter && Elapsed(f.now, started) <= MAX_SKEW_MS
  }

  /** Good frames of one counter, in distinct slots, all within the skew of the first. */
  ghost predicate StageFrames(es: seq<Frame>, counter: nat) {
    && es != [] && AllCore(es)
    && (forall k | 0 <= k < |es| :: BelongsTo(es[k], counter, es[0].now))
    && DistinctSlots(es)
  }

  ghost function SlotSet(es: seq<Frame>): set<nat>
    requires AllCore(es)
  {
    set k | 0 <= k < |es| :: SlotOf(es[k])
  }

  /** b holds the payload of each frame at the frame's slot. */
  ghost predicate Holds(b: seq<Payload>, es: seq<Frame>)
    requires AllCore(es)
  {
    |b| == 4 && forall k | 0 <= k < |es| :: b[SlotOf(es[k])] == es[k].payload
  }

  /** Four frames that make a coherent bundle with payloads b. */
  ghost predicate CleanBundle(es: seq<Frame>, counter: nat, b: seq<Payload>) {
    |es| == 4 && StageFrames(es, counter) && Holds(b, es) && BundleValid(b)
  }

  lemma FourSlotsAreAll(es: seq<Frame>)
    requires AllCore(es) && DistinctSlots(es)
    ensures |es| <= 4 && (SlotSet(es) == FULL <==> |es| == 4)
  {
    SlotCount(es);
    assert SlotSet(es) <= FULL;
    assert |FULL| == 4;
    SubsetSize(SlotSet(es), FULL);
  }

  lemma {:induction false} SlotCount(es: seq<Frame>)
    requires AllCore(es) && DistinctSlots(es)
    ensures |SlotSet(es)| == |es|
    decreases |es|
  {
    if es == [] {
      assert SlotSet(es) == {};
    } else {
      SlotSetLast(es);
      SlotCount(es[..|es| - 1]);
      assert SlotOf(es[|es| - 1]) !in SlotSet(es[..|es| - 1]);
    }
  }

  lemma SlotSetLast(es: seq<Frame>)
    requires es != [] && AllCore(es)
    ensures SlotSet(es) == SlotSet(es[..|es| - 1]) + {SlotOf(es[|es| - 1])}
  {
    var n := |es| - 1;
    forall x | x in SlotSet(es) ensures x in SlotSet(es[..n]) + {SlotOf(es[n])} {
      var k :| 0 <= k < |es| && SlotOf(es[k]) == x;
      if k < n { assert es[..n][k] == es[k]; }
    }
    forall x | x in SlotSet(es[..n]) ensures x in SlotSet(es) {
      var k :| 0 <= k < n && SlotOf(es[..n][k]) == x;
      assert es[k] == es[..n][k];
    }
  }

  lemma SubsetSize(a: set<nat>, b: set<nat>)
    requires a <= b
    ensures |a| <= |b| && (a == b <==> |a| == |b|)
  {
    assert b == a + (b - a);
  }

  lemma StagePrefix(es: seq<Frame>, counter: nat)
    requires StageFrames(es, counter) && |es| > 1
    ensures StageFrames(es[..|es| - 1], counter)
  {
    var p := es[..|es| - 1];
    forall k | 0 <= k < |p| ensures p[k] == es[k] { }
  }

  // ----- running a stage -----

  /** c with the given stage open; abandoning another stage costs the streak. */
  function Open(c: Core, counter: nat, started: U32, slots: set<nat>, payload: seq<Payload>): Core {
    var base := if Abandons(c, counter) then c.(activeValid := false, streak := 0) else c;
    base.(stageActive := true, stageCounter := counter, slots := slots, stageStarted := started, payload := payload)
  }

  /** d is c with the partial stage es in it. */
  ghost predicate Filling(c: Core, es: seq<Frame>, counter: nat, d: Core)
    requires AllCore(es) && es != []
  {
    Holds(d.payload, es) && d == Open(c, counter, es[0].now, SlotSet(es), d.payload)
  }

  lemma FirstFrame(c: Core, f: Frame, counter: nat)
    requires WellFormed(c) && IsCore(f) && StageFrames([f], counter) && StartsStage(c, counter)
    ensures Filling(c, [f], counter, CoreNext(c, SlotOf(f), f))
  {
    var es, s := [f], Staged(c, counter, f.now);
    assert es[0] == f;
    assert SlotSet(es) == {SlotOf(f)} by { SlotSetLast(es); assert SlotSet([]) == {}; }
    FourSlotsAreAll(es);
    assert Elapsed(f.now, s.stageStarted) == 0;
    assert s.slots + {SlotOf(f)} == {SlotOf(f)};
    assert PlaceOutcome(c, SlotOf(f), f.payload, f.now) == PowerConsumer.Stored;
  }

  lemma {:induction false} RunStage(c: Core, es: seq<Frame>, counter: nat)
    requires WellFormed(c) && StageFrames(es, counter) && StartsStage(c, counter) && |es| <= 3
    ensures Filling(c, es, counter, RunCore(c, es))
    decreases |es|
  {
    var init, last := es[..|es| - 1], es[|es| - 1];
    assert init + [last] == es;
    if init == [] {
      FirstFrame(c, last, counter);
    } else {
      StagePrefix(es, counter);
      RunStage(c, init, counter);
      ExtendStage(c, init, counter, RunCore(c, init), last);
    }
  }

  lemma {:induction false} ExtendStage(c: Core, init: seq<Frame>, counter: nat, d: Core, last: Frame)
    requires WellFormed(d) && StageFrames(init + [last], counter) && init != [] && |init| <= 2
    requires AllCore(init) && IsCore(last) && Filling(c, init, counter, d)
    ensures Filling(c, init + [last], counter, CoreNext(d, SlotOf(last), last))
  {
    var es := init + [last];
    assert es[..|es| - 1] == init;
    assert es[|es| - 1] == last && es[0] == init[0];
    SlotSetLast(es);
    FourSlotsAreAll(es);
    forall k | 0 <= k < |init| ensures es[k] == init[k] { }
    assert SlotOf(last) !in SlotSet(init);
    assert PlaceOutcome(d, SlotOf(last), last.payload, last.now) == PowerConsumer.Stored;
  }

  /** c after the whole bundle es. */
  function AfterBundle(c: Core, es: seq<Frame>, counter: nat, b: seq<Payload>): Core
    requires |es| == 4 && |b| == 4
  {
    Completed(Open(c, counter, es[0].now, FULL, b), es[3].now)
  }

  lemma LastSlot(es: seq<Frame>)
    requires AllCore(es) && DistinctSlots(es) && |es| == 4
    ensures AllCore(es[..3]) && SlotOf(es[3]) !in SlotSet(es[..3]) && SlotSet(es[..3]) + {SlotOf(es[3])} == FULL
  {
    var init := es[..3];
    assert init == es[..|es| - 1];
    SlotSetLast(es);
    FourSlotsAreAll(es);
    forall k | 0 <= k < 3 ensures init[k] == es[k] { }
  }

  lemma LastPayload(a: seq<Payload>, b: seq<Payload>, es: seq<Frame>)
    requires AllCore(es) && DistinctSlots(es) && |es| == 4 && AllCore(es[..3]) && Holds(a, es[..3]) && Holds(b, es)
    ensures a[SlotOf(es[3]) := es[3].payload] == b
  {
    var t := a[SlotOf(es[3]) := es[3].payload];
    forall k | 0 <= k < 4 ensures t[SlotOf(es[k])] == b[SlotOf(es[k])] {
      if k < 3 {
        assert es[..3][k] == es[k];
      }
    }
    FourSlotsAreAll(es);
    forall s | 0 <= s < 4 ensures t[s] == b[s] {
      assert s in SlotSet(es);
    }
  }

  lemma {:induction false} LastFrame(c: Core, es: seq<Frame>, counter: nat, b: seq<Payload>, d: Core)
    requires WellFormed(d) && CleanBundle(es, counter, b) && AllCore(es[..3]) && Filling(c, es[..3], counter, d)
    ensures CoreNext(d, SlotOf(es[3]), es[3]) == AfterBundle(c, es, counter, b)
  {
    var last := es[3];
    LastSlot(es);
    LastPayload(d.payload, b, es);
    assert es[..3][0] == es[0];
    assert PlaceOutcome(d, SlotOf(last), last.payload, last.now) == PowerConsumer.Accepted;
  }

  /** A clean bundle that opens its own stage always completes, whatever the state before it. */
  lemma BundleCompletes(c: Core, es: seq<Frame>, counter: nat, b: seq<Payload>)
    requires WellFormed(c) && CleanBundle(es, counter, b) && StartsStage(c, counter)
    ensures RunCore(c, es) == AfterBundle(c, es, counter, b)
  {
    assert es[..3] == es[..|es| - 1];
    StagePrefix(es, counter);
    RunStage(c, es[..3], counter);
    LastFrame(c, es, counter, b, RunCore(c, es[..3]));
  }

  lemma {:induction false} RunCoreAppend(c: Core, a: seq<Frame>, b: seq<Frame>)
    requires WellFormed(c) && AllCore(a) && AllCore(b)
    ensures AllCore(a + b) && RunCore(c, a + b) == RunCore(RunCore(c, a), b)
    decreases |b|
  {
    if b == [] {
      assert a + b == a;
    } else {
      var n := |b| - 1;
      RunCoreAppend(c, a, b[..n]);
      assert (a + b)[..|a + b| - 1] == a + b[..n];
      assert (a + b)[|a + b| - 1] == b[n];
    }
  }
}
