/** What a reader of the answers may rely on, in decoded amperes and across the answers: one bundle behind all of them, and an
    envelope that brackets the limits. */
module PowerAnswers {
  import opened Options
  import opened Ticks
  import opened PowerFrames
  import opened PowerConsumer
  import opened PowerRuns
  import opened PowerAuthority

  // ----- one bundle behind all answers -----

  /** Whenever authority is answered, limits, envelope and state of health decode the same bundle, the second of the two that
      the history ends in. */
  lemma AnswersShareTheBundle(frames: seq<Frame>, now: U32, v: Immediate) returns (w: Story, counter: nat)
    requires ImmediateAnswer(Run(INITIAL, frames).core, now) == Some(v)
    ensures Granted(CoreOnly(frames), w, counter, now, v)
    ensures SohAnswer(Run(INITIAL, frames).core, now) == Some(DecodeSoh(w.bp[2], counter, w.b[3].now))
    ensures EnvelopeAnswer(Run(INITIAL, frames), now).Some?
    ensures EnvelopeAnswer(Run(INITIAL, frames), now).value.0 == DecodeEnvelope(w.bp[3], counter, w.b[3].now)
  {
    AuthorityHasProvenance(frames, now, v);
    w, counter :| Granted(CoreOnly(frames), w, counter, now, v);
    StoryGrants(CoreOnly(frames), w, counter, now);
    CoreDependsOnCoreFrames(INITIAL, frames);
  }

  /** No authority, no other answer. */
  lemma NoAuthorityNoAnswer(s: State, now: U32)
    requires ImmediateAnswer(s.core, now).None?
    ensures SohAnswer(s.core, now).None? && EnvelopeAnswer(s, now).None? && ResourceAnswer(s, now).None?
  {
  }

  /** An answered authority is at most 250 ms old on the wrapping clock, and no stage has been open for more than 50 ms. */
  lemma AnswersAreRecent(c: Core, now: U32, v: Immediate)
    requires ImmediateAnswer(c, now) == Some(v)
    ensures (now - v.received) % 4294967296 <= 250
    ensures c.stageActive ==> (now - c.stageStarted) % 4294967296 <= 50
  {
  }

  /** Metadata is answered only beside an authority, with its counter, at most 250 ms old, and at most 50 ms after its bundle. */
  lemma MetadataBelongs(s: State, now: U32, v: Immediate)
    requires ImmediateAnswer(s.core, now) == Some(v)
    ensures ResourceAnswer(s, now).Some? ==> var r := ResourceAnswer(s, now).value;
      r.valid && r.counter == v.counter && (now - r.received) % 4294967296 <= 250 && (r.received - v.received) % 4294967296 <= 50
    ensures EnvelopeAnswer(s, now).Some? && EnvelopeAnswer(s, now).value.1.Some? ==> var b := EnvelopeAnswer(s, now).value.1.value;
      b.valid && b.counter == s.core.envelope.counter && (now - b.received) % 4294967296 <= 250
      && (b.received - v.received) % 4294967296 <= 50
  {
  }

  // ----- coherence -----

  /** In either direction the limit is at most what is feasible for 0.1 s, and at least what is feasible for 10 s, each to
      half an ampere. */
  ghost predicate Coherent(v: Immediate, e: Envelope) {
    && |e.discharge| == 3 && |e.charge| == 3
    && v.discharge.current <= e.discharge[0] + 0.5 && e.discharge[1] <= v.discharge.current + 0.5
    && v.charge.current <= e.charge[0] + 0.5 && e.charge[1] <= v.charge.current + 0.5
  }

  lemma BracketInAmperes(short: nat, long: nat, wire: nat, amperes: real)
    requires amperes * 10.0 == wire as real
    ensures short * 10 + 5 >= wire <==> amperes <= short as real + 0.5
    ensures long * 10 <= wire + 5 <==> long as real <= amperes + 0.5
  {
  }

  /** Two good limit frames pass the bundle check exactly if their decoded limits fit the decoded envelope. */
  lemma CoherentIffValid(b: seq<Payload>, counter: nat, now: U32)
    requires |b| == 4 && LimitValid(0, b[0]) && LimitValid(1, b[1])
    ensures BundleValid(b) <==> Coherent(DecodeImmediate(b, counter, now), DecodeEnvelope(b[3], counter, now))
  {
    DecodedLimitsBounded(0, b[0]);
    DecodedLimitsBounded(1, b[1]);
    var v := DecodeImmediate(b, counter, now);
    BracketInAmperes(b[3][1] as nat, b[3][2] as nat, U16(b[0], 2), v.discharge.current);
    BracketInAmperes(b[3][4] as nat, b[3][5] as nat, U16(b[1], 2), v.charge.current);
  }

  lemma GoodLimits(es: seq<Frame>, counter: nat, b: seq<Payload>)
    requires |es| == 4 && StageFrames(es, counter) && Holds(b, es)
    ensures LimitValid(0, b[0]) && LimitValid(1, b[1])
  {
    var j := FrameInSlot(es, 0);
    var k := FrameInSlot(es, 1);
    FrameLimit(es[j], counter, es[0].now);
    FrameLimit(es[k], counter, es[0].now);
  }

  /** Whenever limits and envelope are answered, they are coherent. */
  lemma AnswersAreCoherent(frames: seq<Frame>, now: U32, v: Immediate, e: Envelope)
    requires ImmediateAnswer(Run(INITIAL, frames).core, now) == Some(v)
    requires EnvelopeAnswer(Run(INITIAL, frames), now).Some? && EnvelopeAnswer(Run(INITIAL, frames), now).value.0 == e
    ensures Coherent(v, e)
  {
    var w, counter := AnswersShareTheBundle(frames, now, v);
    GoodLimits(w.b, counter, w.bp);
    CoherentIffValid(w.bp, counter, w.b[3].now);
  }

  lemma MismatchedFrame(c: Core, es: seq<Frame>, counter: nat, b: seq<Payload>, d: Core)
    requires WellFormed(d) && |es| == 4 && StageFrames(es, counter) && Holds(b, es) && !BundleValid(b)
    requires AllCore(es[..3]) && Filling(c, es[..3], counter, d)
    ensures var r := CoreNext(d, SlotOf(es[3]), es[3]); !r.activeValid && r.streak == 0 && !r.stageActive
  {
    var last := es[3];
    LastSlot(es);
    LastPayload(d.payload, b, es);
    assert es[..3][0] == es[0];
    assert PlaceOutcome(d, SlotOf(last), last.payload, last.now) == PowerConsumer.Mismatched;
  }

  /** Four good frames that open their own stage end it either way: coherent ones publish their decoded values and continue
      the streak, incoherent ones revoke authority and clear the streak. */
  lemma BundleAcceptedIffCoherent(c: Core, es: seq<Frame>, counter: nat, b: seq<Payload>)
    requires WellFormed(c) && |es| == 4 && StageFrames(es, counter) && Holds(b, es) && StartsStage(c, counter)
    ensures var d, v, e := RunCore(c, es), DecodeImmediate(b, counter, es[3].now), DecodeEnvelope(b[3], counter, es[3].now);
      && !d.stageActive
      && (Coherent(v, e) ==> d.streak > 0 && d.immediate == v && d.envelope == e && d.soh == DecodeSoh(b[2], counter, es[3].now))
      && (!Coherent(v, e) ==> d.streak == 0 && !d.activeValid)
  {
    GoodLimits(es, counter, b);
    CoherentIffValid(b, counter, es[3].now);
    if BundleValid(b) {
      BundleCompletes(c, es, counter, b);
    } else {
      assert es[..3] == es[..|es| - 1];
      StagePrefix(es, counter);
      RunStage(c, es[..3], counter);
      MismatchedFrame(c, es, counter, b, RunCore(c, es[..3]));
    }
  }
}
