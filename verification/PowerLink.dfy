/** Sender and consumer together: when the four frames of one snapshot make a coherent bundle, and what two such bundles make the
    consumer answer. */
module PowerLink {
  import opened Options
  import opened Ticks
  import opened PowerFrames
  import opened PowerConsumer
  import opened PowerRuns
  import opened PowerAuthority
  import opened PowerSender

  // ----- the four frames of a snapshot -----

  function IdOf(slot: nat): bv16 { if slot == 0 then 0x684 else if slot == 1 then 0x685 else if slot == 2 then 0x686 else 0x687 }

  function Sent(s: Snapshot, counter: bv8, now: U32, slot: nat): Payload
    requires s.Valid()
  {
    if slot == 0 then EncodeLimit(s, counter, now, true) else if slot == 1 then EncodeLimit(s, counter, now, false)
    else if slot == 2 then EncodeSoh(s, counter, now) else EncodeEnvelope(s, counter, now)
  }

  function SentBundle(s: Snapshot, counter: bv8, now: U32): (b: seq<Payload>)
    requires s.Valid()
    ensures |b| == 4
  {
    [Sent(s, counter, now, 0), Sent(s, counter, now, 1), Sent(s, counter, now, 2), Sent(s, counter, now, 3)]
  }

  /** Every quantity of the snapshot lies within the contract. */
  predicate Fits(s: Snapshot, now: U32)
    requires s.Valid()
  {
    LimitsFit(s, now, true) && LimitsFit(s, now, false) && SohFits(s, now) && EnvelopeFits(s, now)
  }

  lemma SentIsValid(s: Snapshot, counter: bv8, now: U32, slot: nat)
    requires s.Valid() && Fits(s, now) && slot < 4
    ensures CoreValid(slot, Sent(s, counter, now, slot))
  {
    if slot <= 1 {
      LimitArrives(s, counter, now, slot == 0, Sent(s, counter, now, slot));
    } else if slot == 2 {
      SohPasses(s, counter, now, Sent(s, counter, now, slot));
    } else {
      EnvelopePasses(s, counter, now, Sent(s, counter, now, slot));
    }
  }

  function Fields(s: Snapshot, counter: bv8, now: U32, slot: nat): (b: seq<bv8>)
    requires s.Valid()
    ensures |b| == 7 && b[0] == Head(counter)
  {
    if slot == 0 then LimitFields(s, counter, now, true) else if slot == 1 then LimitFields(s, counter, now, false)
    else if slot == 2 then SohFields(s, counter, now) else EnvelopeFields(s, counter, now)
  }

  lemma SentIsSealed(s: Snapshot, counter: bv8, now: U32, slot: nat)
    requires s.Valid()
    ensures Sent(s, counter, now, slot) == Sealed(IdOf(slot), Fields(s, counter, now, slot))
  {
  }

  /** Each of them, carried as sent, passes every check on a frame. */
  lemma SentIsGood(s: Snapshot, counter: bv8, now: U32, slot: nat, arrived: U32)
    requires s.Valid() && Fits(s, now) && slot < 4
    ensures var f := Carried(IdOf(slot), Sent(s, counter, now, slot), arrived);
      KindOf(f.id) == CoreFrame(slot) && FrameVerdict(f) == Good && Counter(f.payload) == Low(counter)
  {
    SentIsSealed(s, counter, now, slot);
    SealedPasses(IdOf(slot), Fields(s, counter, now, slot), counter);
    SentIsValid(s, counter, now, slot);
  }

  // ----- coherence -----

  /** What the consumer compares in one direction: whole amperes with tenths of an ampere. */
  predicate Compares(short: nat, given: nat, long: nat) { short * 10 + 5 >= given && long * 10 <= given + 5 }

  /** The same in the sender's roundings. */
  predicate Brackets(short: real, given: real, long: real) {
    Compares(Rounded(short, 255), Rounded(given * 10.0, 65535), Rounded(long, 255))
  }

  lemma OrderedBrackets(short: real, given: real, long: real)
    requires long <= given <= short <= 120.0
    ensures Brackets(short, given, long)
  {
  }

  lemma ZeroBrackets(short: real, long: real)
    ensures Brackets(short, 0.0, long) <==> long < 0.5
  {
  }

  lemma DischargeNumbers(s: Snapshot, counter: bv8, now: U32, b: seq<Payload>)
    requires s.Valid() && Fits(s, now) && b == SentBundle(s, counter, now)
    ensures U16(b[0], 2) == Rounded(GivenCurrent(s, now, true) * 10.0, 65535)
    ensures b[3][1] as nat == Rounded(FeasibleAt(s, now, true, 0), 255) && b[3][2] as nat == Rounded(FeasibleAt(s, now, true, 1), 255)
  {
    LimitSent(s, counter, now, true, b[0]);
    EnvelopeByte(s, counter, now, b[3], true, 0);
    EnvelopeByte(s, counter, now, b[3], true, 1);
  }

  lemma ChargeNumbers(s: Snapshot, counter: bv8, now: U32, b: seq<Payload>)
    requires s.Valid() && Fits(s, now) && b == SentBundle(s, counter, now)
    ensures U16(b[1], 2) == Rounded(GivenCurrent(s, now, false) * 10.0, 65535)
    ensures b[3][4] as nat == Rounded(FeasibleAt(s, now, false, 0), 255) && b[3][5] as nat == Rounded(FeasibleAt(s, now, false, 1), 255)
  {
    LimitSent(s, counter, now, false, b[1]);
    EnvelopeByte(s, counter, now, b[3], false, 0);
    EnvelopeByte(s, counter, now, b[3], false, 1);
  }

  lemma BundleIs(b: seq<Payload>, short: real, given: real, long: real, chargeShort: real, chargeGiven: real, chargeLong: real)
    requires |b| == 4 && U16(b[0], 2) == Rounded(given * 10.0, 65535) && U16(b[1], 2) == Rounded(chargeGiven * 10.0, 65535)
    requires b[3][1] as nat == Rounded(short, 255) && b[3][2] as nat == Rounded(long, 255)
    requires b[3][4] as nat == Rounded(chargeShort, 255) && b[3][5] as nat == Rounded(chargeLong, 255)
    ensures BundleValid(b) <==> Brackets(short, given, long) && Brackets(chargeShort, chargeGiven, chargeLong)
  {
  }

  lemma BundleBrackets(s: Snapshot, counter: bv8, now: U32)
    requires s.Valid() && Fits(s, now)
    ensures BundleValid(SentBundle(s, counter, now)) <==>
      && Brackets(FeasibleAt(s, now, true, 0), GivenCurrent(s, now, true), FeasibleAt(s, now, true, 1))
      && Brackets(FeasibleAt(s, now, false, 0), GivenCurrent(s, now, false), FeasibleAt(s, now, false, 1))
  {
    var b := SentBundle(s, counter, now);
    DischargeNumbers(s, counter, now, b);
    ChargeNumbers(s, counter, now, b);
    BundleIs(b, FeasibleAt(s, now, true, 0), GivenCurrent(s, now, true), FeasibleAt(s, now, true, 1),
             FeasibleAt(s, now, false, 0), GivenCurrent(s, now, false), FeasibleAt(s, now, false, 1));
  }

  /** In each direction the 1 s current lies between those feasible for 10 s and for 0.1 s. */
  predicate Ordered(s: Snapshot)
    requires s.Valid()
  {
    && s.dischargeCurrent[2] <= s.dischargeCurrent[1] <= s.dischargeCurrent[0]
    && s.chargeCurrent[0] <= s.chargeCurrent[1] <= s.chargeCurrent[2]
  }

  /** A stale snapshot always makes a coherent bundle; a fresh and ordered one exactly if a direction that is inhibited has less
      than half an ampere feasible for 10 s. */
  lemma BundleCoheresIff(s: Snapshot, counter: bv8, now: U32)
    requires s.Valid() && Fits(s, now) && Ordered(s)
    ensures BundleValid(SentBundle(s, counter, now)) <==>
      (FreshAt(s, now) ==>
        && (s.dischargeInhibited ==> s.dischargeCurrent[2] < 0.5)
        && (s.chargeInhibited ==> -s.chargeCurrent[2] < 0.5))
  {
    BundleBrackets(s, counter, now);
    DirectionIff(s, now, true);
    DirectionIff(s, now, false);
  }

  lemma DirectionIff(s: Snapshot, now: U32, discharge: bool)
    requires s.Valid() && Fits(s, now) && Ordered(s)
    ensures Brackets(FeasibleAt(s, now, discharge, 0), GivenCurrent(s, now, discharge), FeasibleAt(s, now, discharge, 1)) <==>
      (FreshAt(s, now) && InhibitedIn(s, discharge) ==> FeasibleAt(s, now, discharge, 1) < 0.5)
  {
    var short, given, long := FeasibleAt(s, now, discharge, 0), GivenCurrent(s, now, discharge), FeasibleAt(s, now, discharge, 1);
    if !FreshAt(s, now) || InhibitedIn(s, discharge) {
      ZeroBrackets(short, long);
    } else {
      OrderedBrackets(short, given, long);
    }
  }

  // ----- the link -----

  /** Four frames that carry this snapshot, one for each slot, within 50 ms of the first. */
  ghost predicate Carries(es: seq<Frame>, s: Snapshot, counter: bv8, sent: U32)
    requires s.Valid()
  {
    && |es| == 4 && AllCore(es) && DistinctSlots(es)
    && forall k | 0 <= k < 4 ::
        && es[k] == Carried(IdOf(SlotOf(es[k])), Sent(s, counter, sent, SlotOf(es[k])), es[k].now)
        && Elapsed(es[k].now, es[0].now) <= 50
  }

  lemma SentAt(s: Snapshot, counter: bv8, now: U32, slot: nat)
    requires s.Valid() && slot < 4
    ensures SentBundle(s, counter, now)[slot] == Sent(s, counter, now, slot)
  {
  }

  lemma CarriedBelongs(es: seq<Frame>, s: Snapshot, counter: bv8, sent: U32, k: nat)
    requires s.Valid() && Fits(s, sent) && Carries(es, s, counter, sent) && k < 4
    ensures BelongsTo(es[k], Low(counter), es[0].now) && SentBundle(s, counter, sent)[SlotOf(es[k])] == es[k].payload
  {
    SentIsGood(s, counter, sent, SlotOf(es[k]), es[k].now);
    SentAt(s, counter, sent, SlotOf(es[k]));
  }

  lemma CarriedIsClean(es: seq<Frame>, s: Snapshot, counter: bv8, sent: U32, b: seq<Payload>)
    requires s.Valid() && Fits(s, sent) && Carries(es, s, counter, sent) && b == SentBundle(s, counter, sent) && BundleValid(b)
    ensures CleanBundle(es, Low(counter), b)
  {
    forall k | 0 <= k < 4 ensures BelongsTo(es[k], Low(counter), es[0].now) && b[SlotOf(es[k])] == es[k].payload {
      CarriedBelongs(es, s, counter, sent, k);
    }
  }

  /** The decoded limit of a direction is the given one to within 0.05 A. */
  ghost predicate Delivers(d: Direction, s: Snapshot, sent: U32, discharge: bool)
    requires s.Valid()
  {
    && (d.authorized <==> FreshAt(s, sent) && !InhibitedIn(s, discharge))
    && (if d.authorized then GivenCurrent(s, sent, discharge) - 0.05 <= d.current <= GivenCurrent(s, sent, discharge) + 0.05
        else d.current == 0.0)
  }

  lemma LimitDelivers(s: Snapshot, counter: bv8, sent: U32, discharge: bool)
    requires s.Valid() && LimitsFit(s, sent, discharge) && GivenCurrent(s, sent, discharge) >= 0.0
    ensures Delivers(DecodeDirection(EncodeLimit(s, counter, sent, discharge)), s, sent, discharge)
  {
    var g := GivenCurrent(s, sent, discharge);
    LimitArrives(s, counter, sent, discharge, EncodeLimit(s, counter, sent, discharge));
    RoundedIsClose(g * 10.0, 65535);
  }

  lemma AnswerIs(d: Core, b: seq<Payload>, counter: nat, completed: U32, now: U32)
    requires |b| == 4 && d.activeValid && !d.stageActive && AnswersOf(d) == Decoded(b, counter, completed) && Elapsed(now, completed) <= 250
    ensures ImmediateAnswer(d, now) == Some(DecodeImmediate(b, counter, completed))
  {
  }

  ghost predicate DeliversBoth(v: Option<Immediate>, s: Snapshot, sent: U32)
    requires s.Valid()
  {
    v.Some? && Delivers(v.value.discharge, s, sent, true) && Delivers(v.value.charge, s, sent, false)
  }

  lemma BundleDelivers(s: Snapshot, counter: bv8, sent: U32, stage: nat, completed: U32)
    requires s.Valid() && Fits(s, sent) && GivenCurrent(s, sent, true) >= 0.0 && GivenCurrent(s, sent, false) >= 0.0
    ensures DeliversBoth(Some(DecodeImmediate(SentBundle(s, counter, sent), stage, completed)), s, sent)
  {
    LimitDelivers(s, counter, sent, true);
    LimitDelivers(s, counter, sent, false);
  }

  /** Two coherent snapshots sent with consecutive counters, in any frame order, make a consumer with no such stage open answer the
      second one's 1 s limits, to within 0.05 A, for 250 ms. */
  lemma LinkGrants(c: Core, xs: seq<Frame>, x: Snapshot, n: bv8, sentX: U32, ys: seq<Frame>, y: Snapshot, m: bv8, sentY: U32, now: U32)
    requires WellFormed(c) && StartsStage(c, Low(n)) && Low(m) == After(Low(n))
    requires x.Valid() && Fits(x, sentX) && Carries(xs, x, n, sentX) && BundleValid(SentBundle(x, n, sentX))
    requires y.Valid() && Fits(y, sentY) && Carries(ys, y, m, sentY) && BundleValid(SentBundle(y, m, sentY))
    requires GivenCurrent(y, sentY, true) >= 0.0 && GivenCurrent(y, sentY, false) >= 0.0 && Elapsed(now, ys[3].now) <= 250
    ensures AllCore(xs + ys) && DeliversBoth(ImmediateAnswer(RunCore(c, xs + ys), now), y, sentY)
  {
    var a, b := SentBundle(x, n, sentX), SentBundle(y, m, sentY);
    CarriedIsClean(xs, x, n, sentX, a);
    CarriedIsClean(ys, y, m, sentY, b);
    TwoBundlesGrant(c, xs, ys, Low(n), a, b);
    AnswerIs(RunCore(c, xs + ys), b, Low(m), ys[3].now, now);
    BundleDelivers(y, m, sentY, Low(m), ys[3].now);
  }
}
