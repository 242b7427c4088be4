/** How many clean bundles bring authority back from an arbitrary receiver state: three always do, two do
    exactly when no stage with the first counter is open. */
module PowerRecovery {
  import opened Options
  import opened Ticks
  import opened PowerFrames
  import opened PowerConsumer
  import opened PowerRuns
  import opened PowerAuthority

  /** A good frame leaves no stage open but its own. */
  lemma LeavesOwnStage(c: Core, f: Frame)
    requires WellFormed(c) && IsCore(f) && FrameVerdict(f) == Good
    ensures var d := CoreNext(c, SlotOf(f), f); !d.stageActive || d.stageCounter == Counter(f.payload)
  {
    assert Staged(c, Counter(f.payload), f.now).stageCounter == Counter(f.payload);
    PlacedCounter(c, SlotOf(f), f.payload, f.now);
  }

  /** A stage still open after a frame keeps the counter it was staged with. */
  lemma PlacedCounter(c: Core, slot: nat, p: Payload, now: U32)
    requires WellFormed(c) && slot < 4
    ensures Placed(c, slot, p, now).stageCounter == Staged(c, Counter(p), now).stageCounter
  {
  }

  lemma LeavesLastStage(c: Core, es: seq<Frame>, counter: nat)
    requires WellFormed(c) && StageFrames(es, counter)
    ensures var d := RunCore(c, es); !d.stageActive || d.stageCounter == counter
  {
    var n := |es| - 1;
    assert BelongsTo(es[n], counter, es[0].now);
    LeavesOwnStage(RunCore(c, es[..n]), es[n]);
  }

  lemma AfterDiffers(counter: nat)
    requires counter < 16
    ensures After(counter) != counter && After(counter) < 16
  {
  }

  /** Three clean bundles with consecutive counters grant authority from every state, with the values of
      the third; advisory traffic may be mixed in at will. */
  lemma ThreeBundlesRecover(s: State, frames: seq<Frame>, x: seq<Frame>, y: seq<Frame>, z: seq<Frame>, counter: nat,
                            xp: seq<Payload>, yp: seq<Payload>, zp: seq<Payload>, now: U32)
    requires WellFormed(s.core) && counter < 16 && CoreOnly(frames) == x + y + z
    requires CleanBundle(x, counter, xp) && CleanBundle(y, After(counter), yp) && CleanBundle(z, After(After(counter)), zp)
    requires Elapsed(now, z[3].now) <= MAX_AGE_MS
    ensures ImmediateAnswer(Run(s, frames).core, now) == Some(DecodeImmediate(zp, After(After(counter)), z[3].now))
  {
    CoreDependsOnCoreFrames(s, frames);
    assert x + y + z == x + (y + z);
    LeavesLastStage(s.core, x, counter);
    AfterDiffers(counter);
    TwoBundlesGrant(RunCore(s.core, x), y, z, After(counter), yp, zp);
    RunCoreAppend(s.core, x, y + z);
  }

  // ----- when two are enough -----

  /** After i frames of es a stage of the same counter that c had open is still filling, or was replaced by
      one that lacks the first slot, or is gone; only an early completion leaves a streak. */
  ghost predicate Spoiled(c: Core, es: seq<Frame>, counter: nat, i: nat, d: Core)
    requires |es| == 4 && AllCore(es) && i <= 4
  {
    if !d.stageActive then i >= 1 && (d.streak == 0 || i <= 3)
    else
      && d.stageCounter == counter
      && (|| (i >= 1 && SlotOf(es[0]) !in d.slots)
          || (c.slots <= d.slots && SlotSet(es[..i]) <= d.slots && c.slots !! SlotSet(es[..i])))
  }

  /** A good frame of the open stage's counter joins it, completes it, or closes it and costs the streak. */
  lemma JoinsOrCloses(d: Core, f: Frame)
    requires WellFormed(d) && d.stageActive && IsCore(f) && FrameVerdict(f) == Good && Counter(f.payload) == d.stageCounter
    ensures var e, slots := CoreNext(d, SlotOf(f), f), d.slots + {SlotOf(f)};
      if e.stageActive then e.stageCounter == d.stageCounter && e.slots == slots && SlotOf(f) !in d.slots && slots != FULL
      else e.streak == 0 || (SlotOf(f) !in d.slots && slots == FULL)
  {
    assert Staged(d, Counter(f.payload), f.now) == d;
    match PlaceOutcome(d, SlotOf(f), f.payload, f.now)
    case Stored =>
    case Accepted =>
    case _ =>
  }

  /** A good frame opens a stage when none is open. */
  lemma OpensFresh(d: Core, f: Frame)
    requires WellFormed(d) && !d.stageActive && IsCore(f) && FrameVerdict(f) == Good
    ensures var e := CoreNext(d, SlotOf(f), f);
      e.stageActive && e.stageCounter == Counter(f.payload) && e.slots == {SlotOf(f)}
  {
    assert {} + {SlotOf(f)} == {SlotOf(f)};
    assert {SlotOf(f)} != FULL by { assert |{SlotOf(f)}| == 1 && |FULL| == 4; }
  }

  lemma Member(es: seq<Frame>, counter: nat, i: nat)
    requires StageFrames(es, counter) && i < |es|
    ensures AllCore(es[..i]) && FrameVerdict(es[i]) == Good && Counter(es[i].payload) == counter
    ensures AllCore(es[..i + 1]) && SlotSet(es[..i + 1]) == SlotSet(es[..i]) + {SlotOf(es[i])}
    ensures i > 0 ==> SlotOf(es[0]) != SlotOf(es[i])
  {
    assert BelongsTo(es[i], counter, es[0].now);
    assert es[..i + 1][..i] == es[..i];
    SlotSetLast(es[..i + 1]);
  }

  lemma OldStageStep(c: Core, es: seq<Frame>, counter: nat, i: nat, d: Core)
    requires WellFormed(c) && c.slots != {} && StageFrames(es, counter) && |es| == 4 && i < 4
    requires WellFormed(d) && d.stageActive && d.stageCounter == counter
    requires c.slots <= d.slots && AllCore(es[..i]) && SlotSet(es[..i]) <= d.slots && c.slots !! SlotSet(es[..i])
    ensures Spoiled(c, es, counter, i + 1, CoreNext(d, SlotOf(es[i]), es[i]))
  {
    Member(es, counter, i);
    JoinsOrCloses(d, es[i]);
    if i == 3 {
      LastSlot(es);
    }
  }

  lemma NewStageStep(c: Core, es: seq<Frame>, counter: nat, i: nat, d: Core)
    requires WellFormed(c) && StageFrames(es, counter) && |es| == 4 && 1 <= i < 4
    requires WellFormed(d) && (d.stageActive ==> d.stageCounter == counter && SlotOf(es[0]) !in d.slots)
    ensures Spoiled(c, es, counter, i + 1, CoreNext(d, SlotOf(es[i]), es[i]))
  {
    Member(es, counter, i);
    if d.stageActive {
      JoinsOrCloses(d, es[i]);
      assert SlotOf(es[0]) in FULL;
    } else {
      OpensFresh(d, es[i]);
    }
  }

  lemma RunOneMore(c: Core, es: seq<Frame>, i: nat)
    requires WellFormed(c) && AllCore(es) && i < |es|
    ensures RunCore(c, es[..i + 1]) == CoreNext(RunCore(c, es[..i]), SlotOf(es[i]), es[i])
  {
    assert es[..i + 1][..i] == es[..i];
  }

  lemma SpoiledStep(c: Core, es: seq<Frame>, counter: nat, i: nat, d: Core)
    requires WellFormed(c) && c.slots != {} && StageFrames(es, counter) && |es| == 4 && i < 4
    requires WellFormed(d) && Spoiled(c, es, counter, i, d)
    ensures Spoiled(c, es, counter, i + 1, CoreNext(d, SlotOf(es[i]), es[i]))
  {
    if i >= 1 && (!d.stageActive || SlotOf(es[0]) !in d.slots) {
      NewStageStep(c, es, counter, i, d);
    } else {
      OldStageStep(c, es, counter, i, d);
    }
  }

  lemma {:induction false} StaysSpoiled(c: Core, es: seq<Frame>, counter: nat, i: nat)
    requires WellFormed(c) && c.stageActive && c.stageCounter == counter && c.slots != {}
    requires StageFrames(es, counter) && |es| == 4 && i <= 4
    ensures AllCore(es[..i]) && Spoiled(c, es, counter, i, RunCore(c, es[..i]))
    decreases i
  {
    if i == 0 {
      assert SlotSet(es[..0]) == {};
    } else {
      StaysSpoiled(c, es, counter, i - 1);
      RunOneMore(c, es, i - 1);
      SpoiledStep(c, es, counter, i - 1, RunCore(c, es[..i - 1]));
    }
  }

  /** A bundle that found its own counter's stage already open earns nothing that the next one could extend. */
  lemma SpoiledBundleEarnsNothing(c: Core, es: seq<Frame>, counter: nat)
    requires WellFormed(c) && c.stageActive && c.stageCounter == counter && c.slots != {}
    requires StageFrames(es, counter) && |es| == 4 && counter < 16
    ensures var d := RunCore(c, es); d.streak == 0 || Abandons(d, After(counter))
  {
    assert es[..4] == es;
    StaysSpoiled(c, es, counter, 4);
    FourSlotsAreAll(es);
    AfterDiffers(counter);
  }

  /** Every open stage the receiver can reach holds at least one frame. */
  lemma OpenStageIsNotEmpty(frames: seq<Frame>)
    ensures var c := Run(INITIAL, frames).core; c.stageActive ==> c.slots != {}
  {
    CoreDependsOnCoreFrames(INITIAL, frames);
    var w := HistoryTells(CoreOnly(frames));
    if w.tail != [] {
      assert SlotOf(w.tail[0]) in SlotSet(w.tail);
    }
  }

  /** From any such state two clean bundles in sequence are enough exactly when no stage with the first counter
      is open. */
  lemma TwoBundlesRecoverIff(c: Core, x: seq<Frame>, y: seq<Frame>, counter: nat, xp: seq<Payload>, yp: seq<Payload>)
    requires WellFormed(c) && counter < 16 && (c.stageActive ==> c.slots != {})
    requires CleanBundle(x, counter, xp) && CleanBundle(y, After(counter), yp)
    ensures AllCore(x + y) && (RunCore(c, x + y).activeValid <==> StartsStage(c, counter))
  {
    RunCoreAppend(c, x, y);
    if StartsStage(c, counter) {
      TwoBundlesGrant(c, x, y, counter, xp, yp);
    } else {
      SpoiledBundleEarnsNothing(c, x, counter);
      LeavesLastStage(c, x, counter);
      AfterDiffers(counter);
      BundleCompletes(RunCore(c, x), y, After(counter), yp);
    }
  }
}
