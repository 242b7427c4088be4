/** When the consumer grants authority: exactly when its history ends in two consecutive clean bundles, whose second
    it then decodes. */
module PowerAuthority {
  import opened Options
  import opened Ticks
  import opened PowerFrames
  import opened PowerConsumer
  import opened PowerRuns

  function Before(counter: nat): nat { (counter + 15) % 16 }

  lemma BeforeAfter(counter: nat)
    requires counter < 16
    ensures Before(After(counter)) == counter && After(Before(counter)) == counter
  {
  }

  // ----- provenance -----

  /** What the receiver publishes from one bundle. */
  datatype Answers = Answers(immediate: Immediate, envelope: Envelope, soh: Soh)

  function AnswersOf(c: Core): Answers { Answers(c.immediate, c.envelope, c.soh) }

  function Decoded(b: seq<Payload>, counter: nat, now: U32): Answers
    requires |b| == 4
  {
    Answers(DecodeImmediate(b, counter, now), DecodeEnvelope(b[3], counter, now), DecodeSoh(b[2], counter, now))
  }

  /** A core history cut into a bundle a, the next bundle b, the frames of an open stage, and what came before. */
  datatype Story = Story(pre: seq<Frame>, a: seq<Frame>, b: seq<Frame>, tail: seq<Frame>, ap: seq<Payload>, bp: seq<Payload>)
  {
    function History(): seq<Frame> { pre + a + b + tail }
  }

  /** No stage with this counter is open after the history before. */
  ghost predicate OpensAfter(before: seq<Frame>, counter: nat) {
    AllCore(before) && StartsStage(RunCore(INITIAL_CORE, before), counter)
  }

  /** es is a clean bundle that opened its own stage after the history before. */
  ghost predicate BundleAfter(before: seq<Frame>, es: seq<Frame>, counter: nat, b: seq<Payload>) {
    CleanBundle(es, counter, b) && OpensAfter(before, counter)
  }

  /** The last two bundles and nothing after them but the frames of one open stage. */
  ghost predicate EndsInTwoBundles(h: seq<Frame>, w: Story, counter: nat) {
    && h == w.History() && counter < 16
    && BundleAfter(w.pre, w.a, Before(counter), w.ap) && BundleAfter(w.pre + w.a, w.b, counter, w.bp)
    && (w.tail == [] || (|w.tail| <= 3 && exists j | 0 <= j < 16 :: StageFrames(w.tail, j)))
  }

  ghost predicate TailOpen(c: Core, tail: seq<Frame>)
    requires WellFormed(c)
  {
    && (c.stageActive <==> tail != [])
    && (tail != [] ==>
          && |tail| <= 3 && StageFrames(tail, c.stageCounter) && Holds(c.payload, tail)
          && c.slots == SlotSet(tail) && c.stageStarted == tail[0].now)
  }

  /** The bundles behind a streak: one for a streak of one, two for a longer one. */
  ghost predicate Earned(pre: seq<Frame>, a: seq<Frame>, b: seq<Frame>, ap: seq<Payload>, bp: seq<Payload>,
                         streak: nat, completeSeen: bool, last: nat, answers: Answers)
  {
    && (streak >= 1 ==> completeSeen && BundleAfter(pre + a, b, last, bp)
                        && answers == Decoded(bp, last, b[3].now))
    && (streak >= 2 ==> BundleAfter(pre, a, Before(last), ap))
  }

  /** The story that the core's state tells about the history h. */
  ghost predicate Tells(h: seq<Frame>, c: Core, w: Story)
    requires WellFormed(c)
  {
    && h == w.History() && AllCore(h) && TailOpen(c, w.tail)
    && (w.tail != [] ==> OpensAfter(w.pre + w.a + w.b, c.stageCounter))
    && c.activeValid == (c.streak >= REQUIRED_BUNDLES)
    && Earned(w.pre, w.a, w.b, w.ap, w.bp, c.streak, c.completeSeen, c.lastCounter, AnswersOf(c))
  }

  function Forgotten(h: seq<Frame>, tail: seq<Frame>): Story { Story(h, [], [], tail, [], []) }

  lemma RejectionTells(c: Core, f: Frame, h: seq<Frame>)
    requires WellFormed(c) && AllCore(h) && IsCore(f) && CoreOutcome(c, SlotOf(f), f) !in {Stored, Accepted}
    ensures Tells(h + [f], CoreNext(c, SlotOf(f), f), Forgotten(h + [f], []))
  {
    assert Forgotten(h + [f], []).History() == h + [f];
  }

  lemma OneFrameStage(f: Frame)
    requires IsCore(f) && FrameVerdict(f) == Good
    ensures StageFrames([f], Counter(f.payload)) && SlotSet([f]) == {SlotOf(f)}
  {
    SlotSetLast([f]);
    assert [f][..0] == [];
    assert SlotSet([]) == {};
  }

  lemma Joined<T>(head: seq<T>, tail: seq<T>, f: T)
    ensures head + (tail + [f]) == head + tail + [f] && head + (tail + [f]) + [] == head + tail + [f]
  {
  }

  lemma PairedUp<T>(pre: seq<T>, a: seq<T>, b: seq<T>, tail: seq<T>)
    ensures pre + (a + b) + tail == pre + a + b + tail
  {
  }

  lemma AllCoreGrows(h: seq<Frame>, f: Frame)
    requires AllCore(h) && IsCore(f)
    ensures AllCore(h + [f])
  {
  }

  lemma ForgottenHistory(h: seq<Frame>, f: Frame)
    ensures Forgotten(h, [f]).History() == h + [f] && h + [] + [] == h
  {
  }

  lemma OpeningIs(c: Core, f: Frame)
    requires WellFormed(c) && IsCore(f)
    requires CoreOutcome(c, SlotOf(f), f) == PowerConsumer.Stored && StartsStage(c, Counter(f.payload))
    ensures FrameVerdict(f) == Good
    ensures CoreNext(c, SlotOf(f), f)
         == Open(c, Counter(f.payload), f.now, {SlotOf(f)}, c.payload[SlotOf(f) := f.payload])
  {
    assert {} + {SlotOf(f)} == {SlotOf(f)};
  }

  lemma OpenedTail(c: Core, f: Frame, d: Core)
    requires WellFormed(c) && WellFormed(d) && IsCore(f) && FrameVerdict(f) == Good
    requires d == Open(c, Counter(f.payload), f.now, {SlotOf(f)}, c.payload[SlotOf(f) := f.payload])
    ensures TailOpen(d, [f])
  {
    OneFrameStage(f);
  }

  /** A stored frame that opens a stage, with or without abandoning another. */
  lemma OpeningTells(c: Core, f: Frame, h: seq<Frame>, w: Story) returns (v: Story)
    requires WellFormed(c) && Tells(h, c, w) && c == RunCore(INITIAL_CORE, h)
    requires IsCore(f) && CoreOutcome(c, SlotOf(f), f) == PowerConsumer.Stored && StartsStage(c, Counter(f.payload))
    ensures Tells(h + [f], CoreNext(c, SlotOf(f), f), v)
  {
    OpeningIs(c, f);
    OpenedTail(c, f, CoreNext(c, SlotOf(f), f));
    AllCoreGrows(h, f);
    if c.stageActive {
      FourSlotsAreAll(w.tail);
      v := Forgotten(h, [f]);
      ForgottenHistory(h, f);
    } else {
      v := w.(tail := [f]);
      assert w.History() == w.pre + w.a + w.b;
    }
  }

  lemma DistinctGrow(tail: seq<Frame>, f: Frame)
    requires AllCore(tail) && IsCore(f) && DistinctSlots(tail) && SlotOf(f) !in SlotSet(tail)
    ensures AllCore(tail + [f]) && DistinctSlots(tail + [f]) && SlotSet(tail + [f]) == SlotSet(tail) + {SlotOf(f)}
  {
    var es := tail + [f];
    assert es[..|es| - 1] == tail;
    forall k | 0 <= k < |tail| ensures es[k] == tail[k] && SlotOf(tail[k]) in SlotSet(tail) { }
    SlotSetLast(es);
  }

  lemma HoldsGrow(b: seq<Payload>, tail: seq<Frame>, f: Frame)
    requires AllCore(tail) && IsCore(f) && SlotOf(f) !in SlotSet(tail) && Holds(b, tail)
    ensures AllCore(tail + [f]) && Holds(b[SlotOf(f) := f.payload], tail + [f])
  {
    forall k | 0 <= k < |tail| ensures (tail + [f])[k] == tail[k] && SlotOf(tail[k]) in SlotSet(tail) { }
  }

  /** The tail with the next frame of the same stage. */
  lemma TailGrows(c: Core, f: Frame, tail: seq<Frame>)
    requires WellFormed(c) && TailOpen(c, tail) && IsCore(f) && SlotOf(f) !in c.slots
    requires tail != [] && BelongsTo(f, c.stageCounter, c.stageStarted)
    ensures StageFrames(tail + [f], c.stageCounter) && SlotSet(tail + [f]) == c.slots + {SlotOf(f)}
    ensures Holds(c.payload[SlotOf(f) := f.payload], tail + [f])
    ensures |tail + [f]| <= 4 && (c.slots + {SlotOf(f)} == FULL <==> |tail + [f]| == 4)
  {
    DistinctGrow(tail, f);
    HoldsGrow(c.payload, tail, f);
    FourSlotsAreAll(tail + [f]);
    assert (tail + [f])[0] == tail[0];
  }

  lemma {:induction false} StoringTells(c: Core, f: Frame, h: seq<Frame>, w: Story) returns (v: Story)
    requires WellFormed(c) && Tells(h, c, w)
    requires IsCore(f) && CoreOutcome(c, SlotOf(f), f) == PowerConsumer.Stored && !StartsStage(c, Counter(f.payload))
    ensures Tells(h + [f], CoreNext(c, SlotOf(f), f), v)
  {
    TailGrows(c, f, w.tail);
    v := w.(tail := w.tail + [f]);
    Joined(w.pre + w.a + w.b, w.tail, f);
    AllCoreGrows(h, f);
  }

  lemma {:induction false} AcceptedIs(c: Core, f: Frame)
    requires WellFormed(c) && IsCore(f) && CoreOutcome(c, SlotOf(f), f) == PowerConsumer.Accepted
    ensures c.stageActive && BelongsTo(f, c.stageCounter, c.stageStarted)
    ensures SlotOf(f) !in c.slots && c.slots + {SlotOf(f)} == FULL
    ensures BundleValid(c.payload[SlotOf(f) := f.payload])
    ensures CoreNext(c, SlotOf(f), f) == Completed(WithPayload(c, SlotOf(f), f.payload), f.now)
  {
    assert {SlotOf(f)} != FULL by { assert |{SlotOf(f)}| == 1 && |FULL| == 4; }
  }

  lemma FirstEarned(pre: seq<Frame>, es: seq<Frame>, counter: nat, p: seq<Payload>)
    requires BundleAfter(pre, es, counter, p)
    ensures Earned(pre, [], es, [], p, 1, true, counter, Decoded(p, counter, es[3].now))
  {
    assert pre + [] == pre;
  }

  lemma NextEarned(w: Story, streak: nat, completeSeen: bool, last: nat, answers: Answers,
                   es: seq<Frame>, counter: nat, p: seq<Payload>)
    requires Earned(w.pre, w.a, w.b, w.ap, w.bp, streak, completeSeen, last, answers) && streak >= 1
    requires BundleAfter(w.pre + w.a + w.b, es, counter, p) && counter == After(last) && last < 16
    ensures Earned(w.pre + w.a, w.b, es, w.bp, p, NextStreak(streak), true, counter, Decoded(p, counter, es[3].now))
  {
    BeforeAfter(last);
    assert BundleAfter(w.pre + w.a, w.b, Before(counter), w.bp);
  }

  lemma TailIsBundle(c: Core, f: Frame, w: Story)
    requires WellFormed(c) && TailOpen(c, w.tail) && w.tail != [] && OpensAfter(w.pre + w.a + w.b, c.stageCounter)
    requires IsCore(f) && SlotOf(f) !in c.slots && c.slots + {SlotOf(f)} == FULL
    requires BelongsTo(f, c.stageCounter, c.stageStarted) && BundleValid(c.payload[SlotOf(f) := f.payload])
    ensures BundleAfter(w.pre + w.a + w.b, w.tail + [f], c.stageCounter, c.payload[SlotOf(f) := f.payload])
    ensures (w.tail + [f])[3] == f
  {
    TailGrows(c, f, w.tail);
  }

  lemma CompletedTells(h: seq<Frame>, t: Core, now: U32, v: Story)
    requires WellFormed(t) && AllCore(h) && h == v.History() && v.tail == []
    requires Earned(v.pre, v.a, v.b, v.ap, v.bp, NextStreak(if OutOfSequence(t) then 0 else t.streak), true, t.stageCounter,
                    Decoded(t.payload, t.stageCounter, now))
    ensures Tells(h, Completed(t, now), v)
  {
  }

  /** The frame that completes a bundle: the tail becomes the last bundle, and the old one stays only if
      the counters follow each other. */
  lemma AcceptanceTells(c: Core, f: Frame, h: seq<Frame>, w: Story) returns (v: Story)
    requires WellFormed(c) && Tells(h, c, w)
    requires IsCore(f) && CoreOutcome(c, SlotOf(f), f) == PowerConsumer.Accepted
    ensures Tells(h + [f], CoreNext(c, SlotOf(f), f), v)
  {
    AcceptedIs(c, f);
    AllCoreGrows(h, f);
    TailIsBundle(c, f, w);
    var es, t := w.tail + [f], WithPayload(c, SlotOf(f), f.payload);
    v := LastTwo(w, c.streak, c.completeSeen, c.lastCounter, AnswersOf(c), es, c.stageCounter, t.payload, OutOfSequence(c));
    Joined(w.pre + w.a + w.b, w.tail, f);
    assert v.History() == h + [f] by { assert v.History() == w.pre + w.a + w.b + es + []; }
    assert t.lastCounter == c.lastCounter;
    CompletedTells(h + [f], t, f.now, v);
  }

  lemma LastTwo(w: Story, streak: nat, completeSeen: bool, last: nat, answers: Answers,
                es: seq<Frame>, counter: nat, p: seq<Payload>, skipped: bool) returns (v: Story)
    requires Earned(w.pre, w.a, w.b, w.ap, w.bp, streak, completeSeen, last, answers) && last < 16
    requires skipped == (completeSeen && counter != After(last)) && BundleAfter(w.pre + w.a + w.b, es, counter, p)
    ensures v.tail == [] && v.b == es && v.pre + v.a == w.pre + w.a + w.b
    ensures Earned(v.pre, v.a, v.b, v.ap, v.bp, NextStreak(if skipped then 0 else streak), true, counter,
                   Decoded(p, counter, es[3].now))
  {
    if skipped || streak == 0 {
      v := Story(w.pre + w.a + w.b, [], es, [], [], p);
      FirstEarned(w.pre + w.a + w.b, es, counter, p);
    } else {
      v := Story(w.pre + w.a, w.b, es, [], w.bp, p);
      NextEarned(w, streak, completeSeen, last, answers, es, counter, p);
    }
  }

  lemma {:induction false} HistoryTells(h: seq<Frame>) returns (w: Story)
    requires AllCore(h)
    ensures Tells(h, RunCore(INITIAL_CORE, h), w)
    decreases |h|
  {
    if h == [] {
      w := Story([], [], [], [], [], []);
    } else {
      var g, f := h[..|h| - 1], h[|h| - 1];
      var u := HistoryTells(g);
      var c := RunCore(INITIAL_CORE, g);
      assert g + [f] == h;
      var o := CoreOutcome(c, SlotOf(f), f);
      if o.Accepted? {
        w := AcceptanceTells(c, f, g, u);
      } else if o.Stored? && StartsStage(c, Counter(f.payload)) {
        w := OpeningTells(c, f, g, u);
      } else if o.Stored? {
        w := StoringTells(c, f, g, u);
      } else {
        RejectionTells(c, f, g);
        w := Forgotten(h, []);
      }
    }
  }

  /** Two clean bundles in sequence grant authority, from any state in which the first one opens a stage. */
  lemma TwoBundlesGrant(c: Core, a: seq<Frame>, b: seq<Frame>, counter: nat, ap: seq<Payload>, bp: seq<Payload>)
    requires WellFormed(c) && counter < 16 && StartsStage(c, counter)
    requires CleanBundle(a, counter, ap) && CleanBundle(b, After(counter), bp)
    ensures AllCore(a + b)
    ensures var d := RunCore(c, a + b);
      && d.activeValid && !d.stageActive && AnswersOf(d) == Decoded(bp, After(counter), b[3].now)
  {
    RunCoreAppend(c, a, b);
    BundleCompletes(c, a, counter, ap);
    BundleCompletes(RunCore(c, a), b, After(counter), bp);
  }

  lemma TailKeepsAuthority(c: Core, tail: seq<Frame>, counter: nat)
    requires WellFormed(c) && !c.stageActive && StageFrames(tail, counter) && |tail| <= 3
    ensures var d := RunCore(c, tail);
      && d.activeValid == c.activeValid && AnswersOf(d) == AnswersOf(c) && d.stageActive && d.stageStarted == tail[0].now
  {
    RunStage(c, tail, counter);
  }

  predicate Recent(w: Story, now: U32) {
    && |w.b| == 4 && Elapsed(now, w.b[3].now) <= MAX_AGE_MS
    && (w.tail == [] || Elapsed(now, w.tail[0].now) <= MAX_SKEW_MS)
  }

  /** The state after a bundle pair and an optional open stage. */
  lemma PairThenTail(pre: seq<Frame>, pair: seq<Frame>, tail: seq<Frame>)
    requires AllCore(pre) && AllCore(pair) && (tail == [] || (|tail| <= 3 && exists j | 0 <= j < 16 :: StageFrames(tail, j)))
    requires !RunCore(RunCore(INITIAL_CORE, pre), pair).stageActive
    ensures AllCore(pre + pair + tail)
    ensures var c, d := RunCore(RunCore(INITIAL_CORE, pre), pair), RunCore(INITIAL_CORE, pre + pair + tail);
      && d.activeValid == c.activeValid && AnswersOf(d) == AnswersOf(c)
      && d.stageActive == (tail != []) && (tail != [] ==> d.stageStarted == tail[0].now)
  {
    RunCoreAppend(INITIAL_CORE, pre, pair);
    if tail == [] {
      assert pre + pair + tail == pre + pair;
    } else {
      var j :| 0 <= j < 16 && StageFrames(tail, j);
      RunCoreAppend(INITIAL_CORE, pre + pair, tail);
      TailKeepsAuthority(RunCore(INITIAL_CORE, pre + pair), tail, j);
    }
  }

  lemma {:induction false} PairGrants(w: Story, counter: nat)
    requires BundleAfter(w.pre, w.a, Before(counter), w.ap) && CleanBundle(w.b, counter, w.bp) && counter < 16
    ensures AllCore(w.a + w.b)
    ensures var d := RunCore(RunCore(INITIAL_CORE, w.pre), w.a + w.b);
      && d.activeValid && !d.stageActive && AnswersOf(d) == Decoded(w.bp, counter, w.b[3].now)
  {
    BeforeAfter(counter);
    TwoBundlesGrant(RunCore(INITIAL_CORE, w.pre), w.a, w.b, Before(counter), w.ap, w.bp);
  }

  lemma {:induction false} StoryEnds(h: seq<Frame>, w: Story, counter: nat)
    requires AllCore(h) && EndsInTwoBundles(h, w, counter)
    ensures var d := RunCore(INITIAL_CORE, h);
      && d.activeValid && AnswersOf(d) == Decoded(w.bp, counter, w.b[3].now)
      && d.stageActive == (w.tail != []) && (w.tail != [] ==> d.stageStarted == w.tail[0].now)
  {
    PairGrants(w, counter);
    PairThenTail(w.pre, w.a + w.b, w.tail);
    PairedUp(w.pre, w.a, w.b, w.tail);
  }

  lemma {:induction false} StoryGrants(h: seq<Frame>, w: Story, counter: nat, now: U32)
    requires AllCore(h) && EndsInTwoBundles(h, w, counter)
    ensures var d := RunCore(INITIAL_CORE, h);
      && d.activeValid && AnswersOf(d) == Decoded(w.bp, counter, w.b[3].now)
      && (Fresh(d, now) <==> Recent(w, now))
  {
    StoryEnds(h, w, counter);
  }

  /** What a granted authority says: a recent story of two bundles, and the values of the second. */
  ghost predicate Granted(h: seq<Frame>, w: Story, counter: nat, now: U32, v: Immediate) {
    EndsInTwoBundles(h, w, counter) && Recent(w, now) && v == DecodeImmediate(w.bp, counter, w.b[3].now)
  }

  /** An immediate authority is answered if and only if the core frames received end in two consecutive
      clean bundles and at most a short open stage, and then it decodes the second bundle. */
  lemma AuthorityHasProvenance(frames: seq<Frame>, now: U32, v: Immediate)
    ensures ImmediateAnswer(Run(INITIAL, frames).core, now) == Some(v)
       <==> exists w, counter :: Granted(CoreOnly(frames), w, counter, now, v)
  {
    var h := CoreOnly(frames);
    CoreDependsOnCoreFrames(INITIAL, frames);
    var c := RunCore(INITIAL_CORE, h);
    if ImmediateAnswer(c, now) == Some(v) {
      var w := HistoryTells(h);
      assert EndsInTwoBundles(h, w, c.lastCounter);
      StoryGrants(h, w, c.lastCounter, now);
      assert Granted(h, w, c.lastCounter, now, v);
    }
    if w, counter :| Granted(h, w, counter, now, v) {
      StoryGrants(h, w, counter, now);
    }
  }

  lemma BundleLimits(es: seq<Frame>, counter: nat, b: seq<Payload>, slot: nat)
    requires CleanBundle(es, counter, b) && slot <= 1
    ensures LimitValid(slot, b[slot])
  {
    var k := FrameInSlot(es, slot);
    FrameLimit(es[k], counter, es[0].now);
  }

  lemma FrameInSlot(es: seq<Frame>, slot: nat) returns (k: nat)
    requires AllCore(es) && DistinctSlots(es) && |es| == 4 && slot < 4
    ensures k < |es| && SlotOf(es[k]) == slot
  {
    FourSlotsAreAll(es);
    assert slot in FULL;
    k :| 0 <= k < |es| && SlotOf(es[k]) == slot;
  }

  lemma FrameLimit(f: Frame, counter: nat, started: U32)
    requires IsCore(f) && BelongsTo(f, counter, started) && SlotOf(f) <= 1
    ensures LimitValid(SlotOf(f), f.payload)
  {
  }

  /** Granted limits never exceed the contract, and a direction that is not authorised gets zero. */
  lemma GrantedLimits(h: seq<Frame>, w: Story, counter: nat, now: U32, v: Immediate)
    requires Granted(h, w, counter, now, v)
    ensures 0.0 <= v.discharge.current <= 120.0 && 0.0 <= v.discharge.power <= 40000.0
    ensures 0.0 <= v.charge.current <= 15.0 && 0.0 <= v.charge.power <= 5000.0
    ensures !v.discharge.authorized ==> v.discharge.current == 0.0 && v.discharge.power == 0.0
    ensures !v.charge.authorized ==> v.charge.current == 0.0 && v.charge.power == 0.0
  {
    BundleLimits(w.b, counter, w.bp, 0);
    BundleLimits(w.b, counter, w.bp, 1);
    DecodedLimitsBounded(0, w.bp[0]);
    DecodedLimitsBounded(1, w.bp[1]);
  }
}
