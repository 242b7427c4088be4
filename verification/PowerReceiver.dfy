/** The consumer object itself, updated in place, proved against the transition functions. */
module PowerReceiver {
  import opened Options
  import opened Ticks
  import Crc8
  import opened PowerFrames
  import opened PowerConsumer

  class Receiver {
    var payload: seq<Payload>
    var stageStarted: U32
    var lastCompleteMs: U32
    var counts: Counts
    var immediate: Immediate
    var envelope: Envelope
    var soh: Soh
    var resource: Resource
    var bindings: Bindings
    var stageMask: bv8
    var stageCounter: nat
    var lastCounter: nat
    var streak: nat
    var stageActive: bool
    var completeSeen: bool
    var activeValid: bool

    ghost predicate Valid()
      reads this
    {
      |payload| == 4 && stageMask & 0xF0 == 0 && streak <= 255 && stageCounter < 16 && lastCounter < 16
    }

    function CoreView(): Core
      reads this
    {
      Core(payload, stageActive, stageCounter, Slots(stageMask), stageStarted, completeSeen, lastCounter,
           lastCompleteMs, streak, activeValid, immediate, envelope, soh)
    }

    function View(): State
      reads this
    {
      State(CoreView(), Advisory(resource, bindings), counts)
    }

    constructor ()
      ensures Valid() && View() == INITIAL
    {
      payload := [NO_PAYLOAD, NO_PAYLOAD, NO_PAYLOAD, NO_PAYLOAD];
      stageStarted, lastCompleteMs := 0, 0;
      counts := Counts(0, 0, 0, 0, 0, 0, 0, 0, 0, 0, 0);
      immediate, envelope, soh := NO_IMMEDIATE, NO_ENVELOPE, NO_SOH;
      resource, bindings := NO_RESOURCE, NO_BINDINGS;
      stageMask, stageCounter, lastCounter, streak := 0, 0, 0, 0;
      stageActive, completeSeen, activeValid := false, false, false;
      new;
      SlotsNone();
    }

    method InvalidateTransport()
      requires Valid()
      modifies this`activeValid, this`streak, this`stageActive, this`stageMask
      ensures Valid() && CoreView() == Invalidated(old(CoreView()))
    {
      activeValid := false;
      streak := 0;
      stageActive := false;
      stageMask := 0;
      SlotsNone();
    }

    /** The sequence check and the streak of consecutive bundles. */
    method CountBundle()
      requires Valid()
      modifies this`streak, this`counts, this`lastCounter, this`completeSeen
      ensures Valid() && completeSeen && lastCounter == stageCounter
      ensures streak == NextStreak(if OutOfSequence(old(CoreView())) then 0 else old(streak))
      ensures counts == old(counts).(accepted := Bump(old(counts).accepted),
                                     counter := AddIf(old(counts).counter, OutOfSequence(old(CoreView()))))
    {
      if completeSeen {
        var expected := (lastCounter + 1) % 16;
        if stageCounter != expected {
          counts := counts.(counter := Bump(counts.counter));
          streak := 0;
        }
      }
      lastCounter := stageCounter;
      completeSeen := true;
      if streak < 255 { streak := streak + 1; }
      counts := counts.(accepted := Bump(counts.accepted));
    }

    method CompleteBundle(now: U32) returns (ok: bool)
      requires Valid()
      modifies this`activeValid, this`streak, this`stageActive, this`stageMask, this`counts, this`lastCounter,
               this`completeSeen, this`lastCompleteMs, this`immediate, this`envelope, this`soh
      ensures Valid() && ok == BundleValid(old(payload))
      ensures CoreView() == if ok then Completed(old(CoreView()), now) else Invalidated(old(CoreView()))
      ensures counts == if !ok then old(counts).(semantic := Bump(old(counts).semantic))
                        else old(counts).(accepted := Bump(old(counts).accepted),
                                          counter := AddIf(old(counts).counter, OutOfSequence(old(CoreView()))))
    {
      if !BundleValid(payload) {
        counts := counts.(semantic := Bump(counts.semantic));
        InvalidateTransport();
        return false;
      }
      AcceptBundle(now);
      return true;
    }

    method AcceptBundle(now: U32)
      requires Valid()
      modifies this`activeValid, this`streak, this`stageActive, this`stageMask, this`counts, this`lastCounter,
               this`completeSeen, this`lastCompleteMs, this`immediate, this`envelope, this`soh
      ensures Valid() && CoreView() == Completed(old(CoreView()), now)
      ensures counts == old(counts).(accepted := Bump(old(counts).accepted),
                                     counter := AddIf(old(counts).counter, OutOfSequence(old(CoreView()))))
    {
      CountBundle();
      Publish(now);
    }

    /** Decoding the staged payloads into the active values and closing the stage. */
    method Publish(now: U32)
      requires Valid()
      modifies this`activeValid, this`stageActive, this`stageMask, this`lastCompleteMs, this`immediate, this`envelope, this`soh
      ensures Valid() && !stageActive && Slots(stageMask) == {} && lastCompleteMs == now
      ensures activeValid == (streak >= REQUIRED_BUNDLES)
      ensures immediate == DecodeImmediate(payload, stageCounter, now)
      ensures envelope == DecodeEnvelope(payload[3], stageCounter, now)
      ensures soh == DecodeSoh(payload[2], stageCounter, now)
    {
      lastCompleteMs := now;
      immediate := DecodeImmediate(payload, stageCounter, now);
      envelope := DecodeEnvelope(payload[3], stageCounter, now);
      soh := DecodeSoh(payload[2], stageCounter, now);
      activeValid := streak >= REQUIRED_BUNDLES;
      stageActive := false;
      stageMask := 0;
      SlotsNone();
    }

    method IngestAdvisory(f: Frame) returns (ok: bool)
      requires KindOf(f.id).StrategyFrame? || KindOf(f.id).BindingsFrame?
      modifies this`resource, this`bindings, this`counts
      ensures Advisory(resource, bindings) == AdvisoryNext(old(Advisory(resource, bindings)), f)
      ensures counts == CountAdvisory(old(counts), FrameVerdict(f)) && ok == (FrameVerdict(f) == Good)
    {
      if f.id == STRATEGY_ID { resource := resource.(valid := false); } else { bindings := bindings.(valid := false); }
      if f.extended || f.remote || f.dlc != 8 {
        counts := counts.(advisoryMalformed := Bump(counts.advisoryMalformed));
        return false;
      }
      if Version(f.payload) != PROTOCOL_VERSION {
        counts := counts.(advisoryVersion := Bump(counts.advisoryVersion));
        return false;
      }
      var crc := Crc8.Compute(f.id, f.payload);
      if f.payload[7] != crc {
        counts := counts.(advisoryCrc := Bump(counts.advisoryCrc));
        return false;
      }
      if f.id == STRATEGY_ID {
        if !StrategyValid(f.payload) {
          counts := counts.(advisorySemantic := Bump(counts.advisorySemantic));
          return false;
        }
        resource := DecodeResource(f.payload, f.now);
      } else {
        if !BindingsValid(f.payload) {
          counts := counts.(advisorySemantic := Bump(counts.advisorySemantic));
          return false;
        }
        bindings := DecodeBindings(f.payload, f.now);
      }
      return true;
    }

    /** The frame-level checks of a core frame. */
    method CheckCore(slot: nat, f: Frame) returns (good: bool)
      requires Valid() && KindOf(f.id) == CoreFrame(slot)
      modifies this`activeValid, this`streak, this`stageActive, this`stageMask, this`counts
      ensures Valid() && good == (FrameVerdict(f) == Good)
      ensures good ==> CoreView() == old(CoreView()) && counts == old(counts)
      ensures !good ==> CoreView() == Invalidated(old(CoreView())) && counts == CountCore(old(counts), old(CoreView()), slot, f)
    {
      good := true;
      if f.extended || f.remote || f.dlc != 8 {
        counts := counts.(malformed := Bump(counts.malformed));
        good := false;
      } else if Version(f.payload) != PROTOCOL_VERSION {
        counts := counts.(version := Bump(counts.version));
        good := false;
      } else {
        var crc := Crc8.Compute(f.id, f.payload);
        if f.payload[7] != crc {
          counts := counts.(crc := Bump(counts.crc));
          good := false;
        } else if !CoreValid(slot, f.payload) {
          counts := counts.(semantic := Bump(counts.semantic));
          good := false;
        }
      }
      if !good { InvalidateTransport(); }
    }

    /** Opening a stage for the frame's counter, abandoning an unfinished one. */
    method OpenStage(counter: nat, now: U32)
      requires Valid() && counter < 16
      modifies this`activeValid, this`streak, this`stageActive, this`stageMask, this`counts, this`stageCounter, this`stageStarted
      ensures Valid() && CoreView() == Staged(old(CoreView()), counter, now)
      ensures counts == old(counts).(counter := AddIf(old(counts).counter, Abandons(old(CoreView()), counter)))
    {
      SlotsFull(stageMask);
      ghost var before := CoreView();
      if !stageActive || counter != stageCounter {
        assert Abandons(before, counter) <==> stageActive && stageMask != 0x0F;
        if stageActive && stageMask != 0x0F {
          counts := counts.(counter := Bump(counts.counter));
          activeValid := false;
          streak := 0;
        }
        stageActive := true;
        stageCounter := counter;
        stageMask := 0;
        stageStarted := now;
        SlotsNone();
        assert CoreView() == before.(activeValid := activeValid, streak := streak, stageActive := true,
                                     stageCounter := counter, slots := {}, stageStarted := now);
      }
    }

    /** Storing a payload in the open stage, and completing the bundle when it was the last one. */
    method StorePayload(slot: nat, p: Payload, now: U32) returns (ok: bool)
      requires Valid() && slot < 4
      modifies this`activeValid, this`streak, this`stageActive, this`stageMask, this`counts, this`payload,
               this`lastCounter, this`completeSeen, this`lastCompleteMs, this`immediate, this`envelope, this`soh
      ensures Valid()
      ensures var t := WithPayload(old(CoreView()), slot, p);
        if t.slots != FULL then ok && CoreView() == t && counts == old(counts)
        else if BundleValid(t.payload) then
          && ok && CoreView() == Completed(t, now)
          && counts == old(counts).(accepted := Bump(old(counts).accepted), counter := AddIf(old(counts).counter, OutOfSequence(t)))
        else !ok && CoreView() == Invalidated(t) && counts == old(counts).(semantic := Bump(old(counts).semantic))
    {
      payload := payload[slot := p];
      SlotsAdd(stageMask, slot);
      MaskSmall(stageMask, slot);
      stageMask := stageMask | Bit(slot);
      SlotsFull(stageMask);
      ghost var t := CoreView();
      assert t == WithPayload(old(CoreView()), slot, p);
      if stageMask == 0x0F {
        ok := CompleteBundle(now);
      } else {
        ok := true;
      }
    }

    method PlaceCore(slot: nat, f: Frame) returns (ok: bool)
      requires Valid() && KindOf(f.id) == CoreFrame(slot) && FrameVerdict(f) == Good
      modifies this`activeValid, this`streak, this`stageActive, this`stageMask, this`counts, this`stageCounter, this`stageStarted,
               this`payload, this`lastCounter, this`completeSeen, this`lastCompleteMs, this`immediate, this`envelope, this`soh
      ensures Valid() && ok == (PlaceOutcome(old(CoreView()), slot, f.payload, f.now) in {Stored, Accepted})
      ensures CoreView() == Placed(old(CoreView()), slot, f.payload, f.now)
      ensures counts == CountCore(old(counts), old(CoreView()), slot, f)
    {
      ghost var c0, n0 := CoreView(), counts;
      ok := Admit(slot, f);
      if ok {
        AdmittedCounts(n0, c0, slot, f);
        ok := StorePayload(slot, f.payload, f.now);
      }
    }

    /** The skew and duplicate checks against the stage the frame belongs to. */
    method Admit(slot: nat, f: Frame) returns (ok: bool)
      requires Valid() && KindOf(f.id) == CoreFrame(slot) && FrameVerdict(f) == Good
      modifies this`activeValid, this`streak, this`stageActive, this`stageMask, this`counts, this`stageCounter, this`stageStarted
      ensures Valid() && ok == (PlaceOutcome(old(CoreView()), slot, f.payload, f.now) !in {Skewed, Duplicate})
      ensures CoreView() == (var s := Staged(old(CoreView()), Counter(f.payload), f.now); if ok then s else Invalidated(s))
      ensures counts == if ok then old(counts).(counter := AddIf(old(counts).counter, Abandons(old(CoreView()), Counter(f.payload))))
                        else CountCore(old(counts), old(CoreView()), slot, f)
    {
      var now := f.now;
      OpenStage(Counter(f.payload), now);
      ok := true;
      if Elapsed(now, stageStarted) > MAX_SKEW_MS {
        counts := counts.(counter := Bump(counts.counter));
        ok := false;
      } else if stageMask & Bit(slot) != 0 {
        counts := counts.(duplicate := Bump(counts.duplicate));
        ok := false;
      }
      if !ok { InvalidateTransport(); }
    }

    lemma AdmittedCounts(n: Counts, c: Core, slot: nat, f: Frame)
      requires WellFormed(c) && KindOf(f.id) == CoreFrame(slot) && FrameVerdict(f) == Good
      requires PlaceOutcome(c, slot, f.payload, f.now) !in {Skewed, Duplicate}
      ensures var s := Staged(c, Counter(f.payload), f.now);
        var t := WithPayload(s, slot, f.payload);
        var m := n.(counter := AddIf(n.counter, Abandons(c, Counter(f.payload))));
        && Placed(c, slot, f.payload, f.now) == (if t.slots != FULL then t else if BundleValid(t.payload) then Completed(t, f.now) else Invalidated(t))
        && (PlaceOutcome(c, slot, f.payload, f.now) in {Stored, Accepted} <==> t.slots != FULL || BundleValid(t.payload))
        && CountCore(n, c, slot, f) == (if t.slots != FULL then m
             else if BundleValid(t.payload) then m.(accepted := Bump(m.accepted), counter := AddIf(m.counter, OutOfSequence(t)))
             else m.(semantic := Bump(m.semantic)))
    {
    }

    method Ingest(f: Frame) returns (ok: bool)
      requires Valid()
      modifies this
      ensures Valid() && WellFormed(old(CoreView()))
      ensures View() == Next(old(View()), f) && ok == Taken(old(View()), f)
    {
      match KindOf(f.id)
      case CoreFrame(slot) =>
        ok := CheckCore(slot, f);
        if ok { ok := PlaceCore(slot, f); }
      case OtherFrame =>
        ok := false;
      case _ =>
        ok := IngestAdvisory(f);
    }

    function GetImmediateAuthority(now: U32): Option<Immediate>
      reads this
    {
      if activeValid && Elapsed(now, immediate.received) <= MAX_AGE_MS && !(stageActive && Elapsed(now, stageStarted) > MAX_SKEW_MS)
      then Some(immediate) else None
    }

    lemma AnswersView(now: U32)
      ensures GetImmediateAuthority(now) == ImmediateAnswer(View().core, now)
    {
    }
  }
}
