/** The sender's half of the power contract (ams_power_can.c): what the AMS packs into each frame from one snapshot, and that the
    consumer gets it back. */
module PowerSender {
  import opened Ticks
  import opened Bytes
  import Crc8
  import opened PowerFrames

  // ----- the snapshot -----

  /** The published limits, indexed by horizon, 0.1, 1, 10 and 30 s; charge currents are not positive. */
  datatype Snapshot = Snapshot(
    generation: nat, valid: bool, authority: bool, solved: U32, measured: U32,
    capacityPrior: bool, resistancePrior: bool, ambientProxy: bool, slewed: bool,
    dischargeInhibited: bool, chargeInhibited: bool, missionFallback: bool,
    dischargeCurrent: seq<real>, chargeCurrent: seq<real>, dischargePower: real, chargePower: real,
    dischargeBinding: seq<bv8>, chargeBinding: seq<bv8>, dischargeSegment: seq<bv8>, chargeSegment: seq<bv8>,
    capacity: real, capacityLower: real, growthUpper: real, capacityConfidence: bv8, resistanceConfidence: bv8,
    capacityValid: bool, resistanceValid: bool,
    profile: bv8, horizon: bv8, thermalReady: bool, fuseAuthority: bool, limpLatched: bool,
    fuseUtilization: real, minimumCore: real, energyToTarget: real, bootstrap: bv8)
  {
    /** The sizes of the arrays. */
    predicate Valid() {
      && |dischargeCurrent| == |chargeCurrent| == 4 && |dischargeBinding| == |chargeBinding| == 4
      && |dischargeSegment| == |chargeSegment| == 4
    }
  }

  predicate FreshAt(s: Snapshot, now: U32) {
    s.generation != 0 && s.valid && s.authority && Elapsed(now, s.solved) <= 250 && Elapsed(now, s.measured) <= 250
  }

  // ----- packing -----

  /** Rounded to the nearest integer, saturating at both ends. */
  function Rounded(v: real, top: nat): (n: nat)
    ensures n <= top
  {
    if v <= 0.0 then 0 else if v >= top as real then top else (v + 0.5).Floor
  }

  function Byte(n: nat): bv8
    requires n < 256
  {
    n as bv8
  }

  function Nibbles(high: bv8, low: bv8): bv8 { ((high & 0x0F) << 4) | (low & 0x0F) }

  /** The protocol version and the counter. */
  function Head(counter: bv8): bv8 { (2 << 4) | (counter & 0x0F) }

  function Sealed(id: bv16, body: seq<bv8>): Payload
    requires |body| == 7
  {
    body + [Crc8.Checksum(id, body)]
  }

  function Flags(s: Snapshot, recent: bool, inhibited: bool): bv8 {
    (if recent then 0x03 else 0x80) | (if s.capacityPrior then 0x04 else 0) | (if s.resistancePrior then 0x08 else 0)
    | (if s.ambientProxy then 0x10 else 0) | (if s.slewed then 0x20 else 0) | (if inhibited then 0x40 else 0)
  }

  function SegmentNibble(segment: bv8): bv8 { if segment >= 5 then 0x0F else segment }

  function BindingNibble(binding: bv8): bv8 { if binding <= 14 then binding else 11 }

  /** The limit that a direction is given over 1 s, in amperes and watts; nothing without a fresh snapshot. */
  function GivenCurrent(s: Snapshot, now: U32, discharge: bool): real
    requires s.Valid()
  {
    if !FreshAt(s, now) then 0.0
    else if discharge then (if s.dischargeInhibited then 0.0 else s.dischargeCurrent[1])
    else (if s.chargeInhibited then 0.0 else -s.chargeCurrent[1])
  }

  function GivenPower(s: Snapshot, now: U32, discharge: bool): real {
    if !FreshAt(s, now) then 0.0
    else if discharge then (if s.dischargeInhibited then 0.0 else s.dischargePower)
    else (if s.chargeInhibited then 0.0 else s.chargePower)
  }

  function LimitBody(counter: bv8, flags: bv8, deciamperes: nat, tensOfWatts: nat, binding: bv8, segment: bv8): (b: seq<bv8>)
    requires deciamperes < 65536 && tensOfWatts < 65536
    ensures |b| == 7
  {
    [Head(counter), flags, Byte(deciamperes / 256), Byte(deciamperes % 256), Byte(tensOfWatts / 256), Byte(tensOfWatts % 256),
     Nibbles(binding, segment)]
  }

  function LimitFields(s: Snapshot, counter: bv8, now: U32, discharge: bool): (b: seq<bv8>)
    requires s.Valid()
    ensures |b| == 7 && b[0] == Head(counter)
  {
    var inhibited := if discharge then s.dischargeInhibited else s.chargeInhibited;
    var binding := if discharge then s.dischargeBinding[1] else s.chargeBinding[1];
    var segment := SegmentNibble(if discharge then s.dischargeSegment[1] else s.chargeSegment[1]);
    LimitBody(counter, Flags(s, FreshAt(s, now), inhibited), Rounded(GivenCurrent(s, now, discharge) * 10.0, 65535),
              Rounded(GivenPower(s, now, discharge) / 10.0, 65535), binding, segment)
  }

  function EncodeLimit(s: Snapshot, counter: bv8, now: U32, discharge: bool): Payload
    requires s.Valid()
  {
    Sealed(if discharge then DCL_ID else CCL_ID, LimitFields(s, counter, now, discharge))
  }

  function Percent(share: real): bv8 { Byte(Rounded(share * 100.0, 255)) }

  function Combined(s: Snapshot): real {
    var health := if s.growthUpper > 0.0 then 1.0 / s.growthUpper else 0.0;
    if s.capacityLower < health then s.capacityLower else health
  }

  function Confidence(percent: bv8, valid: bool): bv8 { (percent & 0x7F) | (if valid then 0x80 else 0) }

  function SohFields(s: Snapshot, counter: bv8, now: U32): (b: seq<bv8>)
    ensures |b| == 7 && b[0] == Head(counter)
  {
    [Head(counter), Percent(s.capacity), Percent(s.capacityLower), Percent(s.growthUpper), Percent(Combined(s)),
     Confidence(s.capacityConfidence, FreshAt(s, now) && s.capacityValid),
     Confidence(s.resistanceConfidence, FreshAt(s, now) && s.resistanceValid)]
  }

  function EncodeSoh(s: Snapshot, counter: bv8, now: U32): Payload { Sealed(SOH_ID, SohFields(s, counter, now)) }

  /** A current in whole amperes. */
  function Amperes(current: real): bv8 { Byte(Rounded(current, 255)) }

  function EnvelopeFields(s: Snapshot, counter: bv8, now: U32): (b: seq<bv8>)
    requires s.Valid()
    ensures |b| == 7 && b[0] == Head(counter)
  {
    if !FreshAt(s, now) then [Head(counter), 0, 0, 0, 0, 0, 0]
    else [Head(counter), Amperes(s.dischargeCurrent[0]), Amperes(s.dischargeCurrent[2]), Amperes(s.dischargeCurrent[3]),
          Amperes(-s.chargeCurrent[0]), Amperes(-s.chargeCurrent[2]), Amperes(-s.chargeCurrent[3])]
  }

  function EncodeEnvelope(s: Snapshot, counter: bv8, now: U32): Payload
    requires s.Valid()
  {
    Sealed(ENVELOPE_ID, EnvelopeFields(s, counter, now))
  }

  function StrategyFlags(s: Snapshot, recent: bool): bv8 {
    (s.profile & 0x03) | ((s.horizon & 0x03) << 2) | (if recent && s.thermalReady then 0x10 else 0)
    | (if recent && s.fuseAuthority then 0x20 else 0) | (if s.limpLatched then 0x40 else 0)
    | (if !recent || s.missionFallback then 0x80 else 0)
  }

  function StrategyBody(counter: bv8, flags: bv8, utilization: bv8, core: bv8, energy: nat, bootstrap: bv8): (b: seq<bv8>)
    requires energy < 65536
    ensures |b| == 7
  {
    [Head(counter), flags, utilization, core, Byte(energy / 256), Byte(energy % 256), bootstrap]
  }

  function EncodeStrategy(s: Snapshot, counter: bv8, now: U32): Payload {
    Sealed(STRATEGY_ID,
           StrategyBody(counter, StrategyFlags(s, FreshAt(s, now)), Percent(s.fuseUtilization),
                        Byte(Rounded(s.minimumCore + 40.0, 255)), Rounded(s.energyToTarget * 10.0, 65535),
                        if s.bootstrap <= 100 then s.bootstrap else 100))
  }

  function EncodeBindings(s: Snapshot, counter: bv8, now: U32): Payload
    requires s.Valid()
  {
    var db, cb, ds, cs := s.dischargeBinding, s.chargeBinding, s.dischargeSegment, s.chargeSegment;
    Sealed(BINDINGS_ID,
           if !FreshAt(s, now) then [Head(counter), 0xBB, 0xBB, 0xBB, 0xFF, 0xFF, 0xFF]
           else [Head(counter), Nibbles(BindingNibble(db[0]), BindingNibble(db[2])), Nibbles(BindingNibble(db[3]), BindingNibble(cb[0])),
                 Nibbles(BindingNibble(cb[2]), BindingNibble(cb[3])), Nibbles(SegmentNibble(ds[0]), SegmentNibble(ds[2])),
                 Nibbles(SegmentNibble(ds[3]), SegmentNibble(cs[0])), Nibbles(SegmentNibble(cs[2]), SegmentNibble(cs[3]))])
  }

  // ----- bytes and numbers -----

  lemma RoundedIsClose(v: real, top: nat)
    requires 0.0 <= v <= top as real
    ensures v - 0.5 <= Rounded(v, top) as real <= v + 0.5
  {
  }

  lemma RoundedOrder(v: real, w: real, top: nat)
    requires v <= w
    ensures Rounded(v, top) <= Rounded(w, top)
  {
  }

  lemma HighNibble(b: bv8)
    ensures (b >> 4) as nat == High(b) && (b & 0x0F) as nat == Low(b)
  {
  }

  lemma NibblesNumber(h: bv8, l: bv8)
    ensures High(Nibbles(h, l)) == (h & 0x0F) as nat && Low(Nibbles(h, l)) == (l & 0x0F) as nat
  {
    var b := Nibbles(h, l);
    assert b >> 4 == h & 0x0F && b & 0x0F == l & 0x0F;
    HighNibble(b);
  }

  lemma HeadNumber(counter: bv8)
    ensures High(Head(counter)) == 2 && Low(Head(counter)) == Low(counter)
  {
    var b := Head(counter);
    assert b >> 4 == 2 && b & 0x0F == counter & 0x0F;
    HighNibble(b);
    HighNibble(counter);
  }

  lemma FlagMeans(b: bv8)
    ensures Flag(b, 1) == (b & 0x01 != 0) && Flag(b, 2) == (b & 0x02 != 0)
    ensures Flag(b, 64) == (b & 0x40 != 0) && Flag(b, 128) == (b & 0x80 != 0)
  {
    Number1(b);
    Number2(b);
    Number64(b);
    Number128(b);
  }

  lemma FlagsMean(s: Snapshot, recent: bool, inhibited: bool)
    ensures var b := Flags(s, recent, inhibited);
      Flag(b, 1) == recent && Flag(b, 2) == recent && Flag(b, 64) == inhibited && Flag(b, 128) == !recent
  {
    FlagMeans(Flags(s, recent, inhibited));
  }

  lemma TwoBytes(p: Payload, i: nat, n: nat)
    requires i < 7 && n < 65536 && p[i] == Byte(n / 256) && p[i + 1] == Byte(n % 256)
    ensures U16(p, i) == n
  {
    SameNumber(n / 256);
    SameNumber(n % 256);
  }

  lemma SmallNibbles(b: bv8)
    ensures b <= 14 ==> (b & 0x0F) as nat == b as nat <= 14
    ensures SegmentNibble(b) & 0x0F == SegmentNibble(b) && SegmentValid(SegmentNibble(b) as nat)
    ensures BindingNibble(b) & 0x0F == BindingNibble(b) && BindingNibble(b) as nat <= 14
  {
    if b <= 14 { assert b & 0x0F == b; }
  }

  /** A sealed payload passes the version and checksum tests of its identifier. */
  lemma SealedPasses(id: bv16, body: seq<bv8>, counter: bv8)
    requires |body| == 7 && body[0] == Head(counter)
    ensures var p := Sealed(id, body); Version(p) == 2 && Counter(p) == Low(counter) && p[7] == Crc8.Checksum(id, p)
  {
    HeadNumber(counter);
    var p := Sealed(id, body);
    assert p[..7] == body == body[..7];
    assert Crc8.Covered(id, p) == Crc8.Covered(id, body);
  }

  function Carried(id: bv16, p: Payload, now: U32): Frame { Frame(id, false, false, 8, p, now) }

  // ----- what arrives -----

  function InhibitedIn(s: Snapshot, discharge: bool): bool { if discharge then s.dischargeInhibited else s.chargeInhibited }

  function BindingIn(s: Snapshot, discharge: bool): bv8
    requires s.Valid()
  {
    if discharge then s.dischargeBinding[1] else s.chargeBinding[1]
  }

  function SegmentIn(s: Snapshot, discharge: bool): bv8
    requires s.Valid()
  {
    if discharge then s.dischargeSegment[1] else s.chargeSegment[1]
  }

  function SlotIn(discharge: bool): nat { if discharge then 0 else 1 }

  /** The given limits lie within the contract. */
  predicate LimitsFit(s: Snapshot, now: U32, discharge: bool)
    requires s.Valid()
  {
    && GivenCurrent(s, now, discharge) <= (if discharge then 120.0 else 15.0)
    && GivenPower(s, now, discharge) <= (if discharge then 40000.0 else 5000.0) && BindingIn(s, discharge) <= 14
  }

  lemma LimitParts(p: Payload, counter: bv8, flags: bv8, da: nat, tens: nat, binding: bv8, segment: bv8)
    requires da < 65536 && tens < 65536 && p[..7] == LimitBody(counter, flags, da, tens, binding, segment)
    ensures p[1] == flags && U16(p, 2) == da && U16(p, 4) == tens && p[6] == Nibbles(binding, segment)
  {
    var body := LimitBody(counter, flags, da, tens, binding, segment);
    assert forall i | 0 <= i < 7 :: p[i] == p[..7][i];
    assert p[2] == body[2] && p[3] == body[3] && p[4] == body[4] && p[5] == body[5];
    TwoBytes(p, 2, da);
    TwoBytes(p, 4, tens);
  }

  /** The fields of a limit frame. */
  lemma LimitSent(s: Snapshot, counter: bv8, now: U32, discharge: bool, p: Payload)
    requires s.Valid() && p == EncodeLimit(s, counter, now, discharge) && BindingIn(s, discharge) <= 14
    ensures p[1] == Flags(s, FreshAt(s, now), InhibitedIn(s, discharge))
    ensures U16(p, 2) == Rounded(GivenCurrent(s, now, discharge) * 10.0, 65535)
    ensures U16(p, 4) == Rounded(GivenPower(s, now, discharge) / 10.0, 65535)
    ensures High(p[6]) == BindingIn(s, discharge) as nat && Low(p[6]) == SegmentNibble(SegmentIn(s, discharge)) as nat
  {
    var binding, segment := BindingIn(s, discharge), SegmentNibble(SegmentIn(s, discharge));
    LimitParts(p, counter, Flags(s, FreshAt(s, now), InhibitedIn(s, discharge)),
               Rounded(GivenCurrent(s, now, discharge) * 10.0, 65535), Rounded(GivenPower(s, now, discharge) / 10.0, 65535),
               binding, segment);
    NibblesNumber(binding, segment);
    SmallNibbles(binding);
    SmallNibbles(SegmentIn(s, discharge));
  }

  lemma RoundedBelow(v: real, top: nat, bound: nat)
    requires v <= bound as real
    ensures Rounded(v, top) <= bound
  {
  }

  lemma LimitPasses(s: Snapshot, counter: bv8, now: U32, discharge: bool, p: Payload)
    requires s.Valid() && p == EncodeLimit(s, counter, now, discharge) && LimitsFit(s, now, discharge)
    ensures LimitValid(SlotIn(discharge), p)
  {
    LimitSent(s, counter, now, discharge, p);
    FlagsMean(s, FreshAt(s, now), InhibitedIn(s, discharge));
    SmallNibbles(SegmentIn(s, discharge));
    SmallNibbles(BindingIn(s, discharge));
    RoundedBelow(GivenCurrent(s, now, discharge) * 10.0, 65535, if discharge then 1200 else 150);
    RoundedBelow(GivenPower(s, now, discharge) / 10.0, 65535, if discharge then 4000 else 500);
  }

  lemma LimitDecodes(s: Snapshot, counter: bv8, now: U32, discharge: bool, p: Payload, d: Direction)
    requires s.Valid() && p == EncodeLimit(s, counter, now, discharge) && BindingIn(s, discharge) <= 14 && d == DecodeDirection(p)
    ensures d.authorized <==> FreshAt(s, now) && !InhibitedIn(s, discharge)
    ensures d.current * 10.0 == Rounded(GivenCurrent(s, now, discharge) * 10.0, 65535) as real
    ensures d.power == Rounded(GivenPower(s, now, discharge) / 10.0, 65535) as real * 10.0
    ensures d.binding == BindingIn(s, discharge) as nat && d.segment == SegmentNibble(SegmentIn(s, discharge)) as nat
  {
    LimitSent(s, counter, now, discharge, p);
    FlagsMean(s, FreshAt(s, now), InhibitedIn(s, discharge));
    NothingGiven(s, now, discharge);
  }

  lemma NothingGiven(s: Snapshot, now: U32, discharge: bool)
    requires s.Valid()
    ensures !FreshAt(s, now) || InhibitedIn(s, discharge) ==>
      Rounded(GivenCurrent(s, now, discharge) * 10.0, 65535) == 0 && Rounded(GivenPower(s, now, discharge) / 10.0, 65535) == 0
  {
  }

  /** A limit frame passes the consumer's rules and decodes to the given limits, to the nearest tenth of an ampere and ten watts;
      it authorises exactly for a fresh snapshot and a direction not inhibited. */
  lemma LimitArrives(s: Snapshot, counter: bv8, now: U32, discharge: bool, p: Payload)
    requires s.Valid() && p == EncodeLimit(s, counter, now, discharge) && LimitsFit(s, now, discharge)
    ensures LimitValid(SlotIn(discharge), p)
    ensures var d := DecodeDirection(p);
      && (d.authorized <==> FreshAt(s, now) && !InhibitedIn(s, discharge))
      && d.current * 10.0 == Rounded(GivenCurrent(s, now, discharge) * 10.0, 65535) as real
      && d.power == Rounded(GivenPower(s, now, discharge) / 10.0, 65535) as real * 10.0
      && d.binding == BindingIn(s, discharge) as nat && d.segment == SegmentNibble(SegmentIn(s, discharge)) as nat
  {
    LimitPasses(s, counter, now, discharge, p);
    LimitDecodes(s, counter, now, discharge, p, DecodeDirection(p));
  }

  lemma FlagBits(s: Snapshot, recent: bool, inhibited: bool)
    ensures var b := Flags(s, recent, inhibited);
      && (b & 0x01 != 0) == recent && (b & 0x02 != 0) == recent && (b & 0x04 != 0) == s.capacityPrior
      && (b & 0x08 != 0) == s.resistancePrior && (b & 0x10 != 0) == s.ambientProxy && (b & 0x20 != 0) == s.slewed
      && (b & 0x40 != 0) == inhibited && (b & 0x80 != 0) == !recent
  {
  }

  /** The decoded flags are those of the snapshot: valid and authority, the two priors, the ambient proxy, slewing, inhibition, and
      fallback. */
  lemma FlagsArrive(s: Snapshot, counter: bv8, now: U32, discharge: bool, d: Direction)
    requires s.Valid() && d == DecodeDirection(EncodeLimit(s, counter, now, discharge))
    ensures var recent, b := FreshAt(s, now), d.flags;
      && (b & 0x01 != 0) == recent && (b & 0x02 != 0) == recent && (b & 0x04 != 0) == s.capacityPrior
      && (b & 0x08 != 0) == s.resistancePrior && (b & 0x10 != 0) == s.ambientProxy && (b & 0x20 != 0) == s.slewed
      && (b & 0x40 != 0) == (if discharge then s.dischargeInhibited else s.chargeInhibited) && (b & 0x80 != 0) == !recent
  {
    FlagBits(s, FreshAt(s, now), if discharge then s.dischargeInhibited else s.chargeInhibited);
  }

  /** The current feasible over wire horizon k, 0.1, 10 or 30 s; nothing without a fresh snapshot. */
  function FeasibleAt(s: Snapshot, now: U32, discharge: bool, k: nat): real
    requires s.Valid() && k < 3
  {
    var h := if k == 0 then 0 else k + 1;
    if !FreshAt(s, now) then 0.0 else if discharge then s.dischargeCurrent[h] else -s.chargeCurrent[h]
  }

  predicate EnvelopeFits(s: Snapshot, now: U32)
    requires s.Valid()
  {
    && FeasibleAt(s, now, true, 0) <= 120.0 && FeasibleAt(s, now, false, 0) <= 15.0
    && FeasibleAt(s, now, true, 2) <= FeasibleAt(s, now, true, 1) <= FeasibleAt(s, now, true, 0)
    && FeasibleAt(s, now, false, 2) <= FeasibleAt(s, now, false, 1) <= FeasibleAt(s, now, false, 0)
  }

  lemma AmperesNumber(current: real)
    ensures Amperes(current) as nat == Rounded(current, 255)
  {
    SameNumber(Rounded(current, 255));
  }

  lemma EnvelopeSent(s: Snapshot, counter: bv8, now: U32, p: Payload)
    requires s.Valid() && p == EncodeEnvelope(s, counter, now)
    ensures FreshAt(s, now) ==>
      && p[1] == Amperes(s.dischargeCurrent[0]) && p[2] == Amperes(s.dischargeCurrent[2]) && p[3] == Amperes(s.dischargeCurrent[3])
      && p[4] == Amperes(-s.chargeCurrent[0]) && p[5] == Amperes(-s.chargeCurrent[2]) && p[6] == Amperes(-s.chargeCurrent[3])
    ensures !FreshAt(s, now) ==> p[1] == p[2] == p[3] == p[4] == p[5] == p[6] == 0
  {
  }

  lemma NoAmperes()
    ensures Amperes(0.0) == 0
  {
  }

  lemma EnvelopeSentAt(s: Snapshot, counter: bv8, now: U32, p: Payload, discharge: bool, k: nat, i: nat)
    requires s.Valid() && p == EncodeEnvelope(s, counter, now) && k < 3 && i == (if discharge then 1 else 4) + k
    ensures p[i] == Amperes(FeasibleAt(s, now, discharge, k))
  {
    EnvelopeSent(s, counter, now, p);
    NoAmperes();
  }

  lemma EnvelopeByte(s: Snapshot, counter: bv8, now: U32, p: Payload, discharge: bool, k: nat)
    requires s.Valid() && p == EncodeEnvelope(s, counter, now) && k < 3
    ensures p[if discharge then 1 + k else 4 + k] as nat == Rounded(FeasibleAt(s, now, discharge, k), 255)
  {
    EnvelopeSentAt(s, counter, now, p, discharge, k, if discharge then 1 + k else 4 + k);
    AmperesNumber(FeasibleAt(s, now, discharge, k));
  }

  lemma BytesOrder(a: bv8, b: bv8)
    ensures a as nat <= b as nat <==> a <= b
  {
  }

  lemma EnvelopeOrder(s: Snapshot, now: U32, discharge: bool)
    requires s.Valid() && EnvelopeFits(s, now)
    ensures Rounded(FeasibleAt(s, now, discharge, 2), 255) <= Rounded(FeasibleAt(s, now, discharge, 1), 255)
         <= Rounded(FeasibleAt(s, now, discharge, 0), 255) <= (if discharge then 120 else 15)
  {
    RoundedOrder(FeasibleAt(s, now, discharge, 2), FeasibleAt(s, now, discharge, 1), 255);
    RoundedOrder(FeasibleAt(s, now, discharge, 1), FeasibleAt(s, now, discharge, 0), 255);
    RoundedBelow(FeasibleAt(s, now, discharge, 0), 255, if discharge then 120 else 15);
  }

  lemma EnvelopeBytes(s: Snapshot, counter: bv8, now: U32, p: Payload)
    requires s.Valid() && p == EncodeEnvelope(s, counter, now)
    ensures forall k: nat | k < 3 ::
      && p[1 + k] as nat == Rounded(FeasibleAt(s, now, true, k), 255)
      && p[4 + k] as nat == Rounded(FeasibleAt(s, now, false, k), 255)
  {
    forall k: nat | k < 3
      ensures p[1 + k] as nat == Rounded(FeasibleAt(s, now, true, k), 255) && p[4 + k] as nat == Rounded(FeasibleAt(s, now, false, k), 255)
    {
      EnvelopeByte(s, counter, now, p, true, k);
      EnvelopeByte(s, counter, now, p, false, k);
    }
  }

  lemma OrderedBytes(p: Payload, d0: nat, d1: nat, d2: nat, c0: nat, c1: nat, c2: nat)
    requires p[1] as nat == d0 && p[2] as nat == d1 && p[3] as nat == d2 && d2 <= d1 <= d0 <= 120
    requires p[4] as nat == c0 && p[5] as nat == c1 && p[6] as nat == c2 && c2 <= c1 <= c0 <= 15
    ensures EnvelopeValid(p)
  {
    BytesOrder(p[2], p[1]);
    BytesOrder(p[3], p[2]);
    BytesOrder(p[5], p[4]);
    BytesOrder(p[6], p[5]);
  }

  lemma EnvelopePasses(s: Snapshot, counter: bv8, now: U32, p: Payload)
    requires s.Valid() && p == EncodeEnvelope(s, counter, now) && EnvelopeFits(s, now)
    ensures EnvelopeValid(p)
  {
    EnvelopeBytes(s, counter, now, p);
    EnvelopeOrder(s, now, true);
    EnvelopeOrder(s, now, false);
    OrderedBytes(p, Rounded(FeasibleAt(s, now, true, 0), 255), Rounded(FeasibleAt(s, now, true, 1), 255),
                 Rounded(FeasibleAt(s, now, true, 2), 255), Rounded(FeasibleAt(s, now, false, 0), 255),
                 Rounded(FeasibleAt(s, now, false, 1), 255), Rounded(FeasibleAt(s, now, false, 2), 255));
  }

  /** The envelope frame passes the consumer's rules and decodes to the feasible currents, to the nearest ampere. */
  lemma EnvelopeArrives(s: Snapshot, counter: bv8, now: U32, p: Payload, stage: nat, received: U32)
    requires s.Valid() && p == EncodeEnvelope(s, counter, now) && EnvelopeFits(s, now)
    ensures EnvelopeValid(p)
    ensures var e := DecodeEnvelope(p, stage, received);
      && |e.discharge| == |e.charge| == 3 && e.counter == stage && e.received == received
      && forall k | 0 <= k < 3 ::
           && e.discharge[k] == Rounded(FeasibleAt(s, now, true, k), 255) as real
           && e.charge[k] == Rounded(FeasibleAt(s, now, false, k), 255) as real
  {
    EnvelopePasses(s, counter, now, p);
    EnvelopeBytes(s, counter, now, p);
  }

  // ----- state of health -----

  predicate SohFits(s: Snapshot, now: U32) {
    && s.capacity <= 1.1 && s.capacityLower <= 1.0 && s.capacityConfidence <= 100 && s.resistanceConfidence <= 100
    && (FreshAt(s, now) && s.capacityValid ==> 0.5 <= s.capacityLower <= s.capacity)
    && (FreshAt(s, now) && s.resistanceValid ==> s.growthUpper >= 1.0)
  }

  lemma PercentNumber(share: real)
    ensures Percent(share) as nat == Rounded(share * 100.0, 255)
  {
    SameNumber(Rounded(share * 100.0, 255));
  }

  lemma LowSeven(b: bv8)
    ensures b as nat % 128 == (b & 0x7F) as nat
  {
  }

  lemma ConfidenceNumber(percent: bv8, valid: bool)
    requires percent <= 100
    ensures Confidence(percent, valid) as nat % 128 == percent as nat <= 100 && Flag(Confidence(percent, valid), 128) == valid
  {
    var b := Confidence(percent, valid);
    assert b & 0x7F == percent && (b & 0x80 != 0) == valid;
    LowSeven(b);
    Number128(b);
  }

  lemma RoundedAbove(v: real, top: nat, bound: nat)
    requires v >= bound as real && bound <= top
    ensures Rounded(v, top) >= bound
  {
  }

  lemma SohBytes(s: Snapshot, counter: bv8, now: U32, p: Payload)
    requires p == EncodeSoh(s, counter, now) && SohFits(s, now)
    ensures p[1] as nat == Rounded(s.capacity * 100.0, 255) && p[2] as nat == Rounded(s.capacityLower * 100.0, 255)
    ensures p[3] as nat == Rounded(s.growthUpper * 100.0, 255) && p[4] as nat == Rounded(Combined(s) * 100.0, 255)
    ensures p[5] as nat % 128 == s.capacityConfidence as nat <= 100 && Flag(p[5], 128) == (FreshAt(s, now) && s.capacityValid)
    ensures p[6] as nat % 128 == s.resistanceConfidence as nat <= 100 && Flag(p[6], 128) == (FreshAt(s, now) && s.resistanceValid)
  {
    PercentNumber(s.capacity);
    PercentNumber(s.capacityLower);
    PercentNumber(s.growthUpper);
    PercentNumber(Combined(s));
    ConfidenceNumber(s.capacityConfidence, FreshAt(s, now) && s.capacityValid);
    ConfidenceNumber(s.resistanceConfidence, FreshAt(s, now) && s.resistanceValid);
  }

  lemma SohNumbers(s: Snapshot, now: U32, capacity: nat, lower: nat, growth: nat, combined: nat)
    requires SohFits(s, now) && capacity == Rounded(s.capacity * 100.0, 255) && lower == Rounded(s.capacityLower * 100.0, 255)
    requires growth == Rounded(s.growthUpper * 100.0, 255) && combined == Rounded(Combined(s) * 100.0, 255)
    ensures capacity <= 110 && lower <= 100 && combined <= 100
    ensures FreshAt(s, now) && s.capacityValid ==> 50 <= lower <= capacity
    ensures FreshAt(s, now) && s.resistanceValid ==> growth >= 100
  {
    RoundedBelow(s.capacity * 100.0, 255, 110);
    RoundedBelow(s.capacityLower * 100.0, 255, 100);
    RoundedBelow(Combined(s) * 100.0, 255, 100);
    if FreshAt(s, now) && s.capacityValid {
      RoundedAbove(s.capacityLower * 100.0, 255, 50);
      RoundedOrder(s.capacityLower * 100.0, s.capacity * 100.0, 255);
    }
    if FreshAt(s, now) && s.resistanceValid { RoundedAbove(s.growthUpper * 100.0, 255, 100); }
  }

  lemma SohPasses(s: Snapshot, counter: bv8, now: U32, p: Payload)
    requires p == EncodeSoh(s, counter, now) && SohFits(s, now)
    ensures SohValid(p)
  {
    SohBytes(s, counter, now, p);
    SohNumbers(s, now, p[1] as nat, p[2] as nat, p[3] as nat, p[4] as nat);
  }

  /** The frame of the state of health passes the consumer's rules and decodes to the estimates in per cent, the confidences, and
      what of it is valid. */
  lemma SohArrives(s: Snapshot, counter: bv8, now: U32, p: Payload, stage: nat, received: U32)
    requires p == EncodeSoh(s, counter, now) && SohFits(s, now)
    ensures SohValid(p)
    ensures var h := DecodeSoh(p, stage, received);
      && h.counter == stage && h.received == received
      && h.capacity == Rounded(s.capacity * 100.0, 255) as real / 100.0
      && h.capacityLower == Rounded(s.capacityLower * 100.0, 255) as real / 100.0
      && h.growthUpper == Rounded(s.growthUpper * 100.0, 255) as real / 100.0
      && h.combined == Rounded(Combined(s) * 100.0, 255) as real / 100.0
      && h.capacityConfidence == s.capacityConfidence as nat && h.resistanceConfidence == s.resistanceConfidence as nat
      && h.capacityValid == (FreshAt(s, now) && s.capacityValid) && h.resistanceValid == (FreshAt(s, now) && s.resistanceValid)
  {
    SohPasses(s, counter, now, p);
    SohBytes(s, counter, now, p);
  }

  // ----- advisory frames -----

  lemma StrategyFlagsMean(s: Snapshot, recent: bool)
    ensures var b := StrategyFlags(s, recent);
      && b as nat % 4 == (s.profile & 0x03) as nat && b as nat / 4 % 4 == (s.horizon & 0x03) as nat
      && Flag(b, 16) == (recent && s.thermalReady) && Flag(b, 32) == (recent && s.fuseAuthority)
      && Flag(b, 64) == s.limpLatched && Flag(b, 128) == (!recent || s.missionFallback)
  {
    var b := StrategyFlags(s, recent);
    assert b & 0x03 == s.profile & 0x03 && (b >> 2) & 0x03 == s.horizon & 0x03;
    LowFours(b);
    Number16(b);
    Number32(b);
    Number64(b);
    Number128(b);
  }

  lemma LowTwo(b: bv8)
    ensures b as nat % 4 == (b & 0x03) as nat
  {
  }

  lemma ShiftTwo(b: bv8)
    ensures b as nat / 4 == (b >> 2) as nat
  {
  }

  lemma LowFours(b: bv8)
    ensures b as nat % 4 == (b & 0x03) as nat && b as nat / 4 % 4 == ((b >> 2) & 0x03) as nat
  {
    LowTwo(b);
    ShiftTwo(b);
    LowTwo(b >> 2);
  }

  lemma StrategyBytes(s: Snapshot, counter: bv8, now: U32, p: Payload)
    requires p == EncodeStrategy(s, counter, now)
    ensures p[1] == StrategyFlags(s, FreshAt(s, now)) && Counter(p) == Low(counter)
    ensures p[2] as nat == Rounded(s.fuseUtilization * 100.0, 255) && p[3] as nat == Rounded(s.minimumCore + 40.0, 255)
    ensures U16(p, 4) == Rounded(s.energyToTarget * 10.0, 65535)
    ensures p[6] as nat == (if s.bootstrap as nat <= 100 then s.bootstrap as nat else 100)
  {
    HeadNumber(counter);
    PercentNumber(s.fuseUtilization);
    SameNumber(Rounded(s.minimumCore + 40.0, 255));
    TwoBytes(p, 4, Rounded(s.energyToTarget * 10.0, 65535));
    BytesOrder(s.bootstrap, 100);
  }

  lemma SmallProfile(profile: bv8)
    ensures profile <= 2 ==> (profile & 0x03) as nat == profile as nat <= 2
  {
    if profile <= 2 { assert profile & 0x03 == profile; }
  }

  lemma StrategyFields(s: Snapshot, counter: bv8, now: U32, p: Payload, received: U32)
    requires p == EncodeStrategy(s, counter, now)
    ensures var r := DecodeResource(p, received);
      && r.valid && r.received == received && r.counter == Low(counter)
      && r.fuseUtilization == Rounded(s.fuseUtilization * 100.0, 255) as real / 100.0
      && r.minimumCore == Rounded(s.minimumCore + 40.0, 255) as real - 40.0
      && r.energyToTarget == Rounded(s.energyToTarget * 10.0, 65535) as real / 10.0
      && r.bootstrap == (if s.bootstrap as nat <= 100 then s.bootstrap as nat else 100)
  {
    StrategyBytes(s, counter, now, p);
  }

  lemma StrategyFlagsArrive(s: Snapshot, counter: bv8, now: U32, p: Payload, received: U32)
    requires p == EncodeStrategy(s, counter, now) && s.profile <= 2
    ensures StrategyValid(p)
    ensures var r := DecodeResource(p, received);
      && r.profile == s.profile as nat && r.horizon == (s.horizon & 0x03) as nat
      && r.thermalReady == (FreshAt(s, now) && s.thermalReady) && r.fuseAuthority == (FreshAt(s, now) && s.fuseAuthority)
      && r.limpLatched == s.limpLatched && r.fallback == (!FreshAt(s, now) || s.missionFallback)
  {
    SmallProfile(s.profile);
    StrategyFlagsMean(s, FreshAt(s, now));
    StrategyBytes(s, counter, now, p);
  }

  /** The strategy frame passes the consumer's rules for the three known profiles, and decodes to what was sent. */
  lemma StrategyArrives(s: Snapshot, counter: bv8, now: U32, p: Payload, received: U32)
    requires p == EncodeStrategy(s, counter, now) && s.profile <= 2
    ensures StrategyValid(p)
    ensures var r := DecodeResource(p, received);
      && r.valid && r.received == received && r.counter == Low(counter)
      && r.fuseUtilization == Rounded(s.fuseUtilization * 100.0, 255) as real / 100.0
      && r.minimumCore == Rounded(s.minimumCore + 40.0, 255) as real - 40.0
      && r.energyToTarget == Rounded(s.energyToTarget * 10.0, 65535) as real / 10.0
      && r.profile == s.profile as nat && r.horizon == (s.horizon & 0x03) as nat
      && r.thermalReady == (FreshAt(s, now) && s.thermalReady) && r.fuseAuthority == (FreshAt(s, now) && s.fuseAuthority)
      && r.limpLatched == s.limpLatched && r.fallback == (!FreshAt(s, now) || s.missionFallback)
      && r.bootstrap == (if s.bootstrap as nat <= 100 then s.bootstrap as nat else 100)
  {
    StrategyFields(s, counter, now, p, received);
    StrategyFlagsArrive(s, counter, now, p, received);
  }

  lemma BindingNibbles(b: bv8, c: bv8)
    ensures var n := Nibbles(BindingNibble(b), BindingNibble(c));
      High(n) == BindingNibble(b) as nat <= 14 && Low(n) == BindingNibble(c) as nat <= 14
  {
    SmallNibbles(b);
    SmallNibbles(c);
    NibblesNumber(BindingNibble(b), BindingNibble(c));
  }

  lemma SegmentNibbles(b: bv8, c: bv8)
    ensures var n := Nibbles(SegmentNibble(b), SegmentNibble(c));
      High(n) == SegmentNibble(b) as nat && Low(n) == SegmentNibble(c) as nat && SegmentValid(High(n)) && SegmentValid(Low(n))
  {
    SmallNibbles(b);
    SmallNibbles(c);
    NibblesNumber(SegmentNibble(b), SegmentNibble(c));
  }

  /** The bindings and segments of the wire horizons 0.1, 10 and 30 s. */
  function WireBindings(b: seq<bv8>): seq<nat>
    requires |b| == 4
  {
    [BindingNibble(b[0]) as nat, BindingNibble(b[2]) as nat, BindingNibble(b[3]) as nat]
  }

  function WireSegments(b: seq<bv8>): seq<nat>
    requires |b| == 4
  {
    [SegmentNibble(b[0]) as nat, SegmentNibble(b[2]) as nat, SegmentNibble(b[3]) as nat]
  }

  lemma FreshBytes(s: Snapshot, counter: bv8, now: U32, p: Payload)
    requires s.Valid() && p == EncodeBindings(s, counter, now) && FreshAt(s, now)
    ensures var db, cb := s.dischargeBinding, s.chargeBinding;
      && p[1] == Nibbles(BindingNibble(db[0]), BindingNibble(db[2])) && p[2] == Nibbles(BindingNibble(db[3]), BindingNibble(cb[0]))
      && p[3] == Nibbles(BindingNibble(cb[2]), BindingNibble(cb[3]))
    ensures var ds, cs := s.dischargeSegment, s.chargeSegment;
      && p[4] == Nibbles(SegmentNibble(ds[0]), SegmentNibble(ds[2])) && p[5] == Nibbles(SegmentNibble(ds[3]), SegmentNibble(cs[0]))
      && p[6] == Nibbles(SegmentNibble(cs[2]), SegmentNibble(cs[3]))
  {
  }

  lemma FreshNibbles(s: Snapshot, counter: bv8, now: U32, p: Payload)
    requires s.Valid() && p == EncodeBindings(s, counter, now) && FreshAt(s, now)
    ensures [High(p[1]), Low(p[1]), High(p[2])] == WireBindings(s.dischargeBinding)
    ensures [Low(p[2]), High(p[3]), Low(p[3])] == WireBindings(s.chargeBinding)
    ensures forall i | 1 <= i <= 3 :: High(p[i]) <= BINDING_MAX && Low(p[i]) <= BINDING_MAX
  {
    var db, cb := s.dischargeBinding, s.chargeBinding;
    FreshBytes(s, counter, now, p);
    BindingNibbles(db[0], db[2]);
    BindingNibbles(db[3], cb[0]);
    BindingNibbles(cb[2], cb[3]);
  }

  lemma FreshSegments(s: Snapshot, counter: bv8, now: U32, p: Payload)
    requires s.Valid() && p == EncodeBindings(s, counter, now) && FreshAt(s, now)
    ensures [High(p[4]), Low(p[4]), High(p[5])] == WireSegments(s.dischargeSegment)
    ensures [Low(p[5]), High(p[6]), Low(p[6])] == WireSegments(s.chargeSegment)
    ensures forall i | 4 <= i <= 6 :: SegmentValid(High(p[i])) && SegmentValid(Low(p[i]))
  {
    var ds, cs := s.dischargeSegment, s.chargeSegment;
    FreshBytes(s, counter, now, p);
    SegmentNibbles(ds[0], ds[2]);
    SegmentNibbles(ds[3], cs[0]);
    SegmentNibbles(cs[2], cs[3]);
  }

  lemma StaleBindings(s: Snapshot, counter: bv8, now: U32, p: Payload)
    requires s.Valid() && p == EncodeBindings(s, counter, now) && !FreshAt(s, now)
    ensures BindingsValid(p)
  {
  }

  /** The bindings frame always passes the consumer's rules; fresh, it decodes to the bindings and segments of the wire horizons. */
  lemma BindingsArrive(s: Snapshot, counter: bv8, now: U32, p: Payload, received: U32)
    requires s.Valid() && p == EncodeBindings(s, counter, now)
    ensures BindingsValid(p)
    ensures var b := DecodeBindings(p, received);
      && b.valid && b.received == received && b.counter == Low(counter)
      && (FreshAt(s, now) ==>
            && b.discharge == WireBindings(s.dischargeBinding) && b.charge == WireBindings(s.chargeBinding)
            && b.dischargeSegment == WireSegments(s.dischargeSegment) && b.chargeSegment == WireSegments(s.chargeSegment))
  {
    HeadNumber(counter);
    if FreshAt(s, now) {
      FreshNibbles(s, counter, now, p);
      FreshSegments(s, counter, now, p);
    } else {
      StaleBindings(s, counter, now, p);
    }
  }
}
