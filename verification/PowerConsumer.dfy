/** The receive-side protocol of the ECU power consumer: staging four frames per counter, the
    two-bundle rule, advisory metadata, and the answers it gives (ecu_power_consumer.c). */
module PowerConsumer {
  import opened Options
  import opened Ticks
  import opened PowerFrames

  // ----- abstract state -----

  /** What decides the scalar authority. */
  datatype Core = Core(
    payload: seq<Payload>, stageActive: bool, stageCounter: nat, slots: set<nat>, stageStarted: U32,
    completeSeen: bool, lastCounter: nat, lastCompleteMs: U32, streak: nat, activeValid: bool,
    immediate: Immediate, envelope: Envelope, soh: Soh)

  datatype Advisory = Advisory(resource: Resource, bindings: Bindings)

  datatype Counts = Counts(
    accepted: U32, crc: U32, version: U32, counter: U32, malformed: U32, duplicate: U32, semantic: U32,
    advisoryCrc: U32, advisoryVersion: U32, advisoryMalformed: U32, advisorySemantic: U32)

  datatype State = State(core: Core, advisory: Advisory, counts: Counts)

  const FULL: set<nat> := {0, 1, 2, 3}

  const NO_DIRECTION: Direction := Direction(0.0, 0.0, 0, 0, 0, false)
  const NO_IMMEDIATE: Immediate := Immediate(NO_DIRECTION, NO_DIRECTION, 0, 0)
  const NO_ENVELOPE: Envelope := Envelope([0.0, 0.0, 0.0], [0.0, 0.0, 0.0], 0, 0)
  const NO_SOH: Soh := Soh(0.0, 0.0, 0.0, 0.0, 0, 0, 0, 0, false, false)
  const NO_RESOURCE: Resource := Resource(0.0, 0.0, 0.0, 0, 0, 0, 0, false, false, false, false, 0, false)
  const NO_BINDINGS: Bindings := Bindings([0, 0, 0], [0, 0, 0], [0, 0, 0], [0, 0, 0], 0, 0, false)

  const INITIAL_CORE: Core := Core(
    [NO_PAYLOAD, NO_PAYLOAD, NO_PAYLOAD, NO_PAYLOAD], false, 0, {}, 0, false, 0, 0, 0, false,
    NO_IMMEDIATE, NO_ENVELOPE, NO_SOH)

  const INITIAL: State := State(
    INITIAL_CORE, Advisory(NO_RESOURCE, NO_BINDINGS), Counts(0, 0, 0, 0, 0, 0, 0, 0, 0, 0, 0))

  /** The array bounds, the 4-bit counters and the 8-bit streak of the C structure. */
  predicate WellFormed(c: Core) {
    |c.payload| == 4 && c.slots <= FULL && c.streak <= 255 && c.stageCounter < 16 && c.lastCounter < 16
  }

  // ----- one core frame -----

  function Invalidated(c: Core): Core {
    c.(activeValid := false, streak := 0, stageActive := false, slots := {})
  }

  /** A frame whose counter differs from the open stage abandons that stage. */
  predicate StartsStage(c: Core, counter: nat) { !c.stageActive || counter != c.stageCounter }

  predicate Abandons(c: Core, counter: nat) {
    c.stageActive && counter != c.stageCounter && c.slots != FULL
  }

  function Staged(c: Core, counter: nat, now: U32): Core {
    if !StartsStage(c, counter) then c
    else
      var b := if Abandons(c, counter) then c.(activeValid := false, streak := 0) else c;
      b.(stageActive := true, stageCounter := counter, slots := {}, stageStarted := now)
  }

  function NextStreak(n: nat): nat { if n < 255 then n + 1 else n }

  /** The modulo-16 successor of a bundle counter. */
  function After(counter: nat): nat { (counter + 1) % 16 }

  /** A completed bundle out of sequence restarts the streak. */
  predicate OutOfSequence(c: Core) {
    c.completeSeen && c.stageCounter != After(c.lastCounter)
  }

  function Completed(c: Core, now: U32): Core
    requires |c.payload| == 4
  {
    var streak := NextStreak(if OutOfSequence(c) then 0 else c.streak);
    c.(lastCounter := c.stageCounter, completeSeen := true, streak := streak, lastCompleteMs := now,
       immediate := DecodeImmediate(c.payload, c.stageCounter, now),
       envelope := DecodeEnvelope(c.payload[3], c.stageCounter, now),
       soh := DecodeSoh(c.payload[2], c.stageCounter, now),
       activeValid := streak >= REQUIRED_BUNDLES, stageActive := false, slots := {})
  }

  datatype Outcome = Rejected(reason: Verdict) | Skewed | Duplicate | Mismatched | Stored | Accepted

  /** What happens to a core frame that passed its own checks. */
  function PlaceOutcome(c: Core, slot: nat, p: Payload, now: U32): Outcome
    requires WellFormed(c) && slot < 4
  {
    var s := Staged(c, Counter(p), now);
    if Elapsed(now, s.stageStarted) > MAX_SKEW_MS then Skewed
    else if slot in s.slots then Duplicate
    else if s.slots + {slot} != FULL then Stored
    else if BundleValid(s.payload[slot := p]) then Accepted
    else Mismatched
  }

  /** The open stage with one more payload. */
  function WithPayload(s: Core, slot: nat, p: Payload): Core
    requires |s.payload| == 4 && slot < 4
  {
    s.(payload := s.payload[slot := p], slots := s.slots + {slot})
  }

  function Placed(c: Core, slot: nat, p: Payload, now: U32): (r: Core)
    requires WellFormed(c) && slot < 4
    ensures WellFormed(r)
  {
    var s := Staged(c, Counter(p), now);
    var t := WithPayload(s, slot, p);
    match PlaceOutcome(c, slot, p, now)
    case Stored => t
    case Accepted => Completed(t, now)
    case Mismatched => Invalidated(t)
    case _ => Invalidated(s)
  }

  function CoreOutcome(c: Core, slot: nat, f: Frame): Outcome
    requires WellFormed(c) && slot < 4
  {
    var v := FrameVerdict(f);
    if v != Good then Rejected(v) else PlaceOutcome(c, slot, f.payload, f.now)
  }

  function CoreNext(c: Core, slot: nat, f: Frame): (r: Core)
    requires WellFormed(c) && slot < 4
    ensures WellFormed(r)
  {
    if FrameVerdict(f) != Good then Invalidated(c) else Placed(c, slot, f.payload, f.now)
  }

  function AddIf(n: U32, b: bool): U32 { if b then Bump(n) else n }

  function CountCore(n: Counts, c: Core, slot: nat, f: Frame): Counts
    requires WellFormed(c) && slot < 4
  {
    var o := CoreOutcome(c, slot, f);
    var abandoned := !o.Rejected? && Abandons(c, Counter(f.payload));
    var skipped := o.Accepted? && OutOfSequence(Staged(c, Counter(f.payload), f.now));
    n.(accepted := AddIf(n.accepted, o.Accepted?), crc := AddIf(n.crc, o == Rejected(BadCrc)),
       version := AddIf(n.version, o == Rejected(BadVersion)), malformed := AddIf(n.malformed, o == Rejected(Malformed)),
       semantic := AddIf(n.semantic, o == Rejected(BadFrame) || o.Mismatched?),
       duplicate := AddIf(n.duplicate, o.Duplicate?),
       counter := AddIf(AddIf(n.counter, abandoned), o.Skewed? || skipped))
  }

  // ----- one advisory frame -----

  function AdvisoryNext(a: Advisory, f: Frame): Advisory {
    match KindOf(f.id)
    case StrategyFrame =>
      a.(resource := if FrameVerdict(f) == Good then DecodeResource(f.payload, f.now) else a.resource.(valid := false))
    case BindingsFrame =>
      a.(bindings := if FrameVerdict(f) == Good then DecodeBindings(f.payload, f.now) else a.bindings.(valid := false))
    case _ => a
  }

  function CountAdvisory(n: Counts, v: Verdict): Counts {
    n.(advisoryMalformed := AddIf(n.advisoryMalformed, v == Malformed), advisoryVersion := AddIf(n.advisoryVersion, v == BadVersion),
       advisoryCrc := AddIf(n.advisoryCrc, v == BadCrc), advisorySemantic := AddIf(n.advisorySemantic, v == BadFrame))
  }

  /** The state after any received frame, and whether the receiver reports it as taken. */
  function Next(s: State, f: Frame): State
    requires WellFormed(s.core)
  {
    match KindOf(f.id)
    case CoreFrame(slot) => State(CoreNext(s.core, slot, f), s.advisory, CountCore(s.counts, s.core, slot, f))
    case OtherFrame => s
    case _ => State(s.core, AdvisoryNext(s.advisory, f), CountAdvisory(s.counts, FrameVerdict(f)))
  }

  function Taken(s: State, f: Frame): bool
    requires WellFormed(s.core)
  {
    match KindOf(f.id)
    case CoreFrame(slot) => CoreOutcome(s.core, slot, f) in {Stored, Accepted}
    case OtherFrame => false
    case _ => FrameVerdict(f) == Good
  }

  // ----- answers -----

  predicate Fresh(c: Core, now: U32) {
    && c.activeValid && Elapsed(now, c.immediate.received) <= MAX_AGE_MS
    && !(c.stageActive && Elapsed(now, c.stageStarted) > MAX_SKEW_MS)
  }

  function ImmediateAnswer(c: Core, now: U32): Option<Immediate> {
    if Fresh(c, now) then Some(c.immediate) else None
  }

  /** Metadata with the active counter, recent, and received within the skew after the bundle. */
  predicate Synchronised(c: Core, active: nat, received: U32, counter: nat, valid: bool, now: U32) {
    && valid && counter == active && Elapsed(now, received) <= MAX_AGE_MS
    && Elapsed(received, c.immediate.received) <= MAX_SKEW_MS
  }

  function EnvelopeAnswer(s: State, now: U32): Option<(Envelope, Option<Bindings>)> {
    if !Fresh(s.core, now) then None
    else
      var b := s.advisory.bindings;
      Some((s.core.envelope, if Synchronised(s.core, s.core.envelope.counter, b.received, b.counter, b.valid, now) then Some(b) else None))
  }

  function ResourceAnswer(s: State, now: U32): Option<Resource> {
    var r := s.advisory.resource;
    if Fresh(s.core, now) && Synchronised(s.core, s.core.immediate.counter, r.received, r.counter, r.valid, now) then Some(r) else None
  }

  function SohAnswer(c: Core, now: U32): Option<Soh> {
    if Fresh(c, now) then Some(c.soh) else None
  }

  // ----- the receiver's bit masks -----

  function Bit(slot: nat): bv8 {
    if slot == 0 then 1 else if slot == 1 then 2 else if slot == 2 then 4 else 8
  }

  function Slots(mask: bv8): (r: set<nat>)
    ensures r <= FULL
    ensures forall s | 0 <= s < 4 :: s in r <==> mask & Bit(s) != 0
  {
    set s: nat | s in FULL && mask & Bit(s) != 0
  }

  lemma MaskBits(mask: bv8, slot: nat, other: nat)
    requires slot < 4 && other < 4
    ensures (mask | Bit(slot)) & Bit(other) != 0 <==> mask & Bit(other) != 0 || slot == other
  {
  }

  lemma MaskFull(mask: bv8)
    requires mask & 0xF0 == 0
    ensures mask == 0x0F <==> mask & 1 != 0 && mask & 2 != 0 && mask & 4 != 0 && mask & 8 != 0
  {
  }

  lemma MaskSmall(mask: bv8, slot: nat)
    requires mask & 0xF0 == 0
    ensures (mask | Bit(slot)) & 0xF0 == 0
  {
  }

  lemma SlotsFull(mask: bv8)
    requires mask & 0xF0 == 0
    ensures mask == 0x0F <==> Slots(mask) == FULL
  {
    MaskFull(mask);
    assert Slots(mask) == FULL <==> 0 in Slots(mask) && 1 in Slots(mask) && 2 in Slots(mask) && 3 in Slots(mask);
    assert Bit(0) == 1 && Bit(1) == 2 && Bit(2) == 4 && Bit(3) == 8;
  }

  lemma SlotsAdd(mask: bv8, slot: nat)
    requires slot < 4
    ensures Slots(mask | Bit(slot)) == Slots(mask) + {slot}
  {
    forall s | 0 <= s < 4 ensures s in Slots(mask | Bit(slot)) <==> s in Slots(mask) + {slot} { MaskBits(mask, slot, s); }
  }

  lemma SlotsNone()
    ensures Slots(0) == {}
  {
    forall s | 0 <= s < 4 ensures s !in Slots(0) { assert 0 & Bit(s) == 0; }
  }
}
