/** The consumer's answers measured in true time: what a wrapping 32-bit clock and a 4-bit counter still
    guarantee about metadata, ages and open stages. */
module PowerTiming {
  import opened Options
  import opened Ticks
  import opened PowerFrames
  import opened PowerConsumer
  import opened PowerRuns

  /** Every frame is stamped with the wrapped clock, and arrival times never decrease or pass t. */
  ghost predicate Stamped(frames: seq<Frame>, times: seq<nat>, t: nat) {
    && |times| == |frames|
    && (forall i | 0 <= i < |frames| :: frames[i].now == Clock(times[i]) && times[i] <= t)
    && (forall i, j | 0 <= i <= j < |times| :: times[i] <= times[j])
  }

  // ----- the events an answer depends on -----

  datatype Event = Strategy | BindingsKind | Completion | Opening

  /** From core state c, frame f is an advisory frame of the kind, completes a bundle, or opens a stage. */
  predicate Occurs(e: Event, c: Core, f: Frame)
    requires WellFormed(c)
  {
    match e
    case Strategy => KindOf(f.id).StrategyFrame?
    case BindingsKind => KindOf(f.id).BindingsFrame?
    case Completion => IsCore(f) && CoreOutcome(c, SlotOf(f), f) == PowerConsumer.Accepted
    case Opening => IsCore(f) && FrameVerdict(f) == Good && StartsStage(c, Counter(f.payload))
  }

  /** The index of the latest frame at which the event occurred. */
  function Latest(e: Event, frames: seq<Frame>): (r: Option<nat>)
    ensures r.Some? ==> r.value < |frames|
    decreases |frames|
  {
    if frames == [] then None
    else
      var n := |frames| - 1;
      if Occurs(e, Run(INITIAL, frames[..n]).core, frames[n]) then Some(n) else Latest(e, frames[..n])
  }

  /** What the state remembers of each event. */
  ghost predicate Remembers(e: Event, s: State, f: Frame) {
    match e
    case Strategy =>
      if FrameVerdict(f) == Good then s.advisory.resource == DecodeResource(f.payload, f.now) else !s.advisory.resource.valid
    case BindingsKind =>
      if FrameVerdict(f) == Good then s.advisory.bindings == DecodeBindings(f.payload, f.now) else !s.advisory.bindings.valid
    case Completion =>
      s.core.immediate.received == f.now && s.core.immediate.counter == Counter(f.payload) == s.core.envelope.counter
    case Opening => s.core.stageActive ==> s.core.stageStarted == f.now
  }

  /** What the state shows when the event never happened. */
  ghost predicate Lacks(e: Event, s: State) {
    match e
    case Strategy => !s.advisory.resource.valid
    case BindingsKind => !s.advisory.bindings.valid
    case Completion => !s.core.activeValid && s.core.streak == 0
    case Opening => !s.core.stageActive
  }

  lemma CompletionStep(c: Core, f: Frame)
    requires WellFormed(c) && IsCore(f)
    ensures var accepted, d := CoreOutcome(c, SlotOf(f), f) == PowerConsumer.Accepted, CoreNext(c, SlotOf(f), f);
      if accepted then d.immediate.received == f.now && d.immediate.counter == Counter(f.payload) == d.envelope.counter
      else d.immediate == c.immediate && d.envelope == c.envelope && (!c.activeValid && c.streak == 0 ==> !d.activeValid && d.streak == 0)
  {
  }

  lemma OpeningStep(c: Core, f: Frame)
    requires WellFormed(c) && IsCore(f)
    ensures var opens, d := FrameVerdict(f) == Good && StartsStage(c, Counter(f.payload)), CoreNext(c, SlotOf(f), f);
      d.stageActive ==> if opens then d.stageStarted == f.now else c.stageActive && d.stageStarted == c.stageStarted
  {
    if FrameVerdict(f) == Good {
      StagedStart(c, Counter(f.payload), f.now);
      PlacedStart(c, SlotOf(f), f.payload, f.now);
    }
  }

  lemma StagedStart(c: Core, counter: nat, now: U32)
    ensures var s := Staged(c, counter, now);
      s.stageStarted == (if StartsStage(c, counter) then now else c.stageStarted) && s.stageActive
  {
  }

  /** A stage still open after a frame is the one that the frame was staged in. */
  lemma PlacedStart(c: Core, slot: nat, p: Payload, now: U32)
    requires WellFormed(c) && slot < 4
    ensures Placed(c, slot, p, now).stageActive ==> Placed(c, slot, p, now).stageStarted == Staged(c, Counter(p), now).stageStarted
  {
  }

  lemma NextCore(s: State, f: Frame)
    requires WellFormed(s.core)
    ensures Next(s, f).core == if IsCore(f) then CoreNext(s.core, SlotOf(f), f) else s.core
    ensures Next(s, f).advisory == AdvisoryNext(s.advisory, f)
  {
  }

  lemma EventIsRemembered(e: Event, s: State, f: Frame)
    requires WellFormed(s.core) && Occurs(e, s.core, f)
    ensures Remembers(e, Next(s, f), f)
  {
    NextCore(s, f);
    if e == Completion {
      CompletionStep(s.core, f);
    } else if e == Opening {
      OpeningStep(s.core, f);
    }
  }

  lemma EventIsKept(e: Event, s: State, f: Frame, g: Frame)
    requires WellFormed(s.core) && !Occurs(e, s.core, f)
    ensures Remembers(e, s, g) ==> Remembers(e, Next(s, f), g)
    ensures Lacks(e, s) ==> Lacks(e, Next(s, f))
  {
    NextCore(s, f);
    if e == Completion && IsCore(f) {
      CompletionStep(s.core, f);
    } else if e == Opening && IsCore(f) {
      OpeningStep(s.core, f);
    }
  }

  /** The state accounts for the latest occurrence of the event among these frames. */
  ghost predicate Recalls(e: Event, s: State, frames: seq<Frame>, i: Option<nat>) {
    match i
    case Some(k) => k < |frames| && Remembers(e, s, frames[k])
    case None => Lacks(e, s)
  }

  lemma RecallStep(e: Event, s: State, init: seq<Frame>, f: Frame, i: Option<nat>)
    requires WellFormed(s.core) && Recalls(e, s, init, i)
    ensures Recalls(e, Next(s, f), init + [f], if Occurs(e, s.core, f) then Some(|init|) else i)
  {
    assert (init + [f])[|init|] == f;
    if Occurs(e, s.core, f) {
      EventIsRemembered(e, s, f);
    } else if i.Some? {
      assert (init + [f])[i.value] == init[i.value];
      EventIsKept(e, s, f, init[i.value]);
    } else {
      EventIsKept(e, s, f, f);
    }
  }

  lemma {:induction false} LatestIsRemembered(e: Event, frames: seq<Frame>)
    ensures Recalls(e, Run(INITIAL, frames), frames, Latest(e, frames))
    decreases |frames|
  {
    if frames != [] {
      var n := |frames| - 1;
      LatestIsRemembered(e, frames[..n]);
      RecallStep(e, Run(INITIAL, frames[..n]), frames[..n], frames[n], Latest(e, frames[..n]));
      assert frames == frames[..n] + [frames[n]];
    }
  }

  // ----- the answers in true time -----

  /** The latest event of this kind is less than one wrap of the clock ago. */
  ghost predicate WithinWrap(e: Event, frames: seq<Frame>, times: seq<nat>, t: nat)
    requires |times| == |frames|
  {
    Latest(e, frames).Some? ==> t < times[Latest(e, frames).value] + WRAP
  }

  /** What an authority answer depends on is less than one wrap ago: the bundle of a standing authority, and the opening
      of a stage still open. */
  ghost predicate CoreWithinWrap(frames: seq<Frame>, times: seq<nat>, t: nat)
    requires |times| == |frames|
  {
    var c := Run(INITIAL, frames).core;
    c.activeValid ==> WithinWrap(Completion, frames, times, t) && (c.stageActive ==> WithinWrap(Opening, frames, times, t))
  }

  ghost predicate StageYoung(frames: seq<Frame>, times: seq<nat>, t: nat)
    requires |times| == |frames|
  {
    Run(INITIAL, frames).core.stageActive ==> exists o: nat :: Latest(Opening, frames) == Some(o) && t <= times[o] + MAX_SKEW_MS
  }

  /** Authority stands, its bundle completed at frame m at most 250 ms ago, and no stage has been open for
      more than 50 ms. */
  ghost predicate Answering(frames: seq<Frame>, times: seq<nat>, t: nat, m: nat)
    requires |times| == |frames|
  {
    && Latest(Completion, frames) == Some(m) && Run(INITIAL, frames).core.activeValid
    && t <= times[m] + MAX_AGE_MS && StageYoung(frames, times, t)
  }

  /** The latest frame i of the kind is good, carries the counter of bundle m, came no earlier than that
      bundle and at most 50 ms after it, and is at most 250 ms old. */
  ghost predicate Metadata(e: Event, frames: seq<Frame>, times: seq<nat>, t: nat, i: nat, m: nat)
    requires |times| == |frames|
  {
    && Answering(frames, times, t, m) && Latest(e, frames) == Some(i)
    && FrameVerdict(frames[i]) == Good && Counter(frames[i].payload) == Counter(frames[m].payload)
    && times[m] <= times[i] <= times[m] + MAX_SKEW_MS && t <= times[i] + MAX_AGE_MS
  }

  lemma AgeIsTrue(e: Event, frames: seq<Frame>, times: seq<nat>, t: nat, i: nat)
    requires Stamped(frames, times, t) && WithinWrap(e, frames, times, t) && Latest(e, frames) == Some(i)
    ensures Elapsed(Clock(t), frames[i].now) == t - times[i]
  {
    ElapsedIsTrue(t, times[i]);
  }

  lemma StageAgeIsTrue(frames: seq<Frame>, times: seq<nat>, t: nat)
    requires Stamped(frames, times, t)
    requires Run(INITIAL, frames).core.stageActive ==> WithinWrap(Opening, frames, times, t)
    ensures var c := Run(INITIAL, frames).core;
      (c.stageActive ==> Elapsed(Clock(t), c.stageStarted) <= MAX_SKEW_MS) <==> StageYoung(frames, times, t)
  {
    if Run(INITIAL, frames).core.stageActive {
      LatestIsRemembered(Opening, frames);
      var o := Latest(Opening, frames).value;
      AgeIsTrue(Opening, frames, times, t, o);
    }
  }

  /** Any authority is answered exactly when its bundle is truly at most 250 ms old and no stage has truly been open
      for more than 50 ms. */
  lemma FreshInTrueTime(frames: seq<Frame>, times: seq<nat>, t: nat)
    requires Stamped(frames, times, t) && CoreWithinWrap(frames, times, t)
    ensures Fresh(Run(INITIAL, frames).core, Clock(t)) <==> exists m: nat :: Answering(frames, times, t, m)
  {
    var c := Run(INITIAL, frames).core;
    if c.activeValid {
      StageAgeIsTrue(frames, times, t);
      LatestIsRemembered(Completion, frames);
      var m := Latest(Completion, frames).value;
      AgeIsTrue(Completion, frames, times, t, m);
      assert Answering(frames, times, t, m) <==> t <= times[m] + MAX_AGE_MS && StageYoung(frames, times, t);
    }
  }

  /** Beyond one wrap the promise fails: without another frame, every answer comes back one wrap of the clock later,
      when its bundle is truly far too old. */
  lemma AuthorityReturnsAfterWrap(frames: seq<Frame>, times: seq<nat>, t: nat, later: nat, v: Immediate)
    requires Stamped(frames, times, t) && ImmediateAnswer(Run(INITIAL, frames).core, Clock(t)) == Some(v) && later == t + WRAP
    ensures ImmediateAnswer(Run(INITIAL, frames).core, Clock(later)) == Some(v)
    ensures Stamped(frames, times, later) && forall m: nat :: !Answering(frames, times, later, m)
  {
    ClockRepeats(t);
  }

  /** The two wrapped checks on metadata mean what they should in true time. */
  lemma SkewInTrueTime(received: nat, completed: nat, t: nat)
    requires received <= t < received + WRAP && completed <= t < completed + WRAP
    ensures Elapsed(Clock(t), Clock(received)) <= MAX_AGE_MS && Elapsed(Clock(received), Clock(completed)) <= MAX_SKEW_MS
       <==> completed <= received <= completed + MAX_SKEW_MS && t <= received + MAX_AGE_MS
  {
    ElapsedIsTrue(t, received);
    if completed <= received {
      ElapsedIsTrue(received, completed);
    } else {
      ElapsedBackwards(completed, received);
    }
  }

  lemma SynchronisedInTrueTime(e: Event, frames: seq<Frame>, times: seq<nat>, t: nat, i: nat, m: nat)
    requires Stamped(frames, times, t) && CoreWithinWrap(frames, times, t) && WithinWrap(e, frames, times, t)
    requires Latest(e, frames) == Some(i) && Answering(frames, times, t, m)
    ensures var c := Run(INITIAL, frames).core;
      Synchronised(c, Counter(frames[m].payload), frames[i].now, Counter(frames[i].payload), FrameVerdict(frames[i]) == Good, Clock(t))
      <==> Metadata(e, frames, times, t, i, m)
  {
    LatestIsRemembered(Completion, frames);
    SkewInTrueTime(times[i], times[m], t);
  }

  /** Resource state is answered if and only if it decodes the most recent strategy frame and that frame
      belongs to the active bundle. */
  lemma ResourceIsSynchronised(frames: seq<Frame>, times: seq<nat>, t: nat, r: Resource)
    requires Stamped(frames, times, t) && CoreWithinWrap(frames, times, t)
    requires Run(INITIAL, frames).advisory.resource.valid ==> WithinWrap(Strategy, frames, times, t)
    ensures ResourceAnswer(Run(INITIAL, frames), Clock(t)) == Some(r)
       <==> exists i: nat, m: nat :: Metadata(Strategy, frames, times, t, i, m) && r == DecodeResource(frames[i].payload, frames[i].now)
  {
    var s := Run(INITIAL, frames);
    FreshInTrueTime(frames, times, t);
    if ResourceAnswer(s, Clock(t)) == Some(r) {
      LatestIsRemembered(Strategy, frames);
      var i := Latest(Strategy, frames).value;
      var m: nat :| Answering(frames, times, t, m);
      LatestIsRemembered(Completion, frames);
      SynchronisedInTrueTime(Strategy, frames, times, t, i, m);
      assert Metadata(Strategy, frames, times, t, i, m);
    }
    if i: nat, m: nat :| Metadata(Strategy, frames, times, t, i, m) && r == DecodeResource(frames[i].payload, frames[i].now) {
      LatestIsRemembered(Strategy, frames);
      LatestIsRemembered(Completion, frames);
      SynchronisedInTrueTime(Strategy, frames, times, t, i, m);
    }
  }

  /** The envelope comes with bindings if and only if they decode the most recent bindings frame and that
      frame belongs to the active bundle. */
  lemma BindingsAreSynchronised(frames: seq<Frame>, times: seq<nat>, t: nat, b: Bindings)
    requires Stamped(frames, times, t) && CoreWithinWrap(frames, times, t)
    requires Run(INITIAL, frames).advisory.bindings.valid ==> WithinWrap(BindingsKind, frames, times, t)
    ensures EnvelopeAnswer(Run(INITIAL, frames), Clock(t)) == Some((Run(INITIAL, frames).core.envelope, Some(b)))
       <==> exists i: nat, m: nat :: Metadata(BindingsKind, frames, times, t, i, m) && b == DecodeBindings(frames[i].payload, frames[i].now)
  {
    var s := Run(INITIAL, frames);
    FreshInTrueTime(frames, times, t);
    if EnvelopeAnswer(s, Clock(t)) == Some((s.core.envelope, Some(b))) {
      LatestIsRemembered(BindingsKind, frames);
      var i := Latest(BindingsKind, frames).value;
      var m: nat :| Answering(frames, times, t, m);
      LatestIsRemembered(Completion, frames);
      SynchronisedInTrueTime(BindingsKind, frames, times, t, i, m);
      assert Metadata(BindingsKind, frames, times, t, i, m);
    }
    if i: nat, m: nat :| Metadata(BindingsKind, frames, times, t, i, m) && b == DecodeBindings(frames[i].payload, frames[i].now) {
      LatestIsRemembered(BindingsKind, frames);
      LatestIsRemembered(Completion, frames);
      SynchronisedInTrueTime(BindingsKind, frames, times, t, i, m);
    }
  }
}
