/** The frames of the power contract: identifiers, field extraction, per-frame and per-bundle
    semantic rules, and what each frame decodes to (ecu_power_consumer.c and .h). */
module PowerFrames {
  import opened Ticks
  import Crc8

  function Bump(n: U32): U32 { (n + 1) % WRAP }

  type Payload = p: seq<bv8> | |p| == 8 witness [0, 0, 0, 0, 0, 0, 0, 0]

  const NO_PAYLOAD: Payload := [0, 0, 0, 0, 0, 0, 0, 0]

  const DCL_ID: bv16 := 0x684
  const CCL_ID: bv16 := 0x685
  const SOH_ID: bv16 := 0x686
  const ENVELOPE_ID: bv16 := 0x687
  const STRATEGY_ID: bv16 := 0x689
  const BINDINGS_ID: bv16 := 0x68A

  const PROTOCOL_VERSION: nat := 2
  const MAX_AGE_MS: nat := 250
  const MAX_SKEW_MS: nat := 50
  const REQUIRED_BUNDLES: nat := 2
  const DCL_MAX_DA: nat := 1200
  const CCL_MAX_DA: nat := 150
  const DPL_MAX_10W: nat := 4000
  const CPL_MAX_10W: nat := 500
  const BINDING_MAX: nat := 14
  const LIMP_HOME: nat := 2

  /** One received CAN frame with its arrival time. */
  datatype Frame = Frame(id: bv16, extended: bool, remote: bool, dlc: bv8, payload: Payload, now: U32)

  datatype Kind = CoreFrame(slot: nat) | StrategyFrame | BindingsFrame | OtherFrame

  function KindOf(id: bv16): (k: Kind)
    ensures k.CoreFrame? ==> k.slot < 4
  {
    if id == DCL_ID then CoreFrame(0) else if id == CCL_ID then CoreFrame(1)
    else if id == SOH_ID then CoreFrame(2) else if id == ENVELOPE_ID then CoreFrame(3)
    else if id == STRATEGY_ID then StrategyFrame else if id == BINDINGS_ID then BindingsFrame
    else OtherFrame
  }

  function High(b: bv8): nat { b as nat / 16 }

  function Low(b: bv8): (r: nat)
    ensures r < 16
  {
    b as nat % 16
  }

  predicate Flag(b: bv8, weight: nat)
    requires weight > 0
  {
    b as nat / weight % 2 == 1
  }

  function U16(p: Payload, i: nat): nat
    requires i < 7
  {
    p[i] as nat * 256 + p[i + 1] as nat
  }

  function Version(p: Payload): nat { High(p[0]) }

  function Counter(p: Payload): (r: nat)
    ensures r < 16
  {
    Low(p[0])
  }

  predicate SegmentValid(s: nat) { s <= 4 || s == 15 }

  // ----- semantic rules -----

  predicate LimitValid(slot: nat, p: Payload) {
    var valid, authority, inhibited, fallback := Flag(p[1], 1), Flag(p[1], 2), Flag(p[1], 64), Flag(p[1], 128);
    && valid == authority && !(valid && fallback)
    && U16(p, 2) <= (if slot == 0 then DCL_MAX_DA else CCL_MAX_DA)
    && U16(p, 4) <= (if slot == 0 then DPL_MAX_10W else CPL_MAX_10W)
    && High(p[6]) <= BINDING_MAX && SegmentValid(Low(p[6]))
    && (!valid || inhibited || fallback ==> U16(p, 2) == 0 && U16(p, 4) == 0)
  }

  predicate SohValid(p: Payload) {
    var capacity, lower, growth := p[1] as nat, p[2] as nat, p[3] as nat;
    && capacity <= 110 && lower <= 100 && p[4] as nat <= 100
    && p[5] as nat % 128 <= 100 && p[6] as nat % 128 <= 100
    && (Flag(p[5], 128) ==> capacity >= 50 && lower >= 50 && lower <= capacity)
    && (Flag(p[6], 128) ==> growth >= 100)
  }

  predicate EnvelopeValid(p: Payload) {
    && p[1] as nat <= DCL_MAX_DA / 10 && p[2] as nat <= DCL_MAX_DA / 10 && p[3] as nat <= DCL_MAX_DA / 10
    && p[4] as nat <= CCL_MAX_DA / 10 && p[5] as nat <= CCL_MAX_DA / 10 && p[6] as nat <= CCL_MAX_DA / 10
    && p[1] >= p[2] >= p[3] && p[4] >= p[5] >= p[6]
  }

  predicate CoreValid(slot: nat, p: Payload) {
    if slot <= 1 then LimitValid(slot, p) else if slot == 2 then SohValid(p) else EnvelopeValid(p)
  }

  predicate StrategyValid(p: Payload) {
    p[1] as nat % 4 <= LIMP_HOME && p[1] as nat / 4 % 4 <= 3 && p[6] as nat <= 100
  }

  predicate BindingsValid(p: Payload) {
    && (forall i | 1 <= i <= 3 :: High(p[i]) <= BINDING_MAX && Low(p[i]) <= BINDING_MAX)
    && (forall i | 4 <= i <= 6 :: SegmentValid(High(p[i])) && SegmentValid(Low(p[i])))
  }

  /** The envelope brackets the two active limits to within half an ampere. */
  predicate BundleValid(b: seq<Payload>)
    requires |b| == 4
  {
    && b[3][1] as nat * 10 + 5 >= U16(b[0], 2) && b[3][2] as nat * 10 <= U16(b[0], 2) + 5
    && b[3][4] as nat * 10 + 5 >= U16(b[1], 2) && b[3][5] as nat * 10 <= U16(b[1], 2) + 5
  }

  /** The first check a core frame fails, in the order the receiver applies them. */
  datatype Verdict = Good | Malformed | BadVersion | BadCrc | BadFrame

  function FrameVerdict(f: Frame): Verdict {
    if f.extended || f.remote || f.dlc != 8 then Malformed
    else if Version(f.payload) != PROTOCOL_VERSION then BadVersion
    else if f.payload[7] != Crc8.Checksum(f.id, f.payload) then BadCrc
    else match KindOf(f.id)
      case CoreFrame(slot) => if CoreValid(slot, f.payload) then Good else BadFrame
      case StrategyFrame => if StrategyValid(f.payload) then Good else BadFrame
      case BindingsFrame => if BindingsValid(f.payload) then Good else BadFrame
      case OtherFrame => BadFrame
  }

  // ----- decoded values -----

  datatype Direction = Direction(current: real, power: real, flags: bv8, binding: nat, segment: nat, authorized: bool)

  datatype Immediate = Immediate(discharge: Direction, charge: Direction, received: U32, counter: nat)

  datatype Envelope = Envelope(discharge: seq<real>, charge: seq<real>, received: U32, counter: nat)

  datatype Soh = Soh(
    capacity: real, capacityLower: real, growthUpper: real, combined: real, received: U32, counter: nat,
    capacityConfidence: nat, resistanceConfidence: nat, capacityValid: bool, resistanceValid: bool)

  datatype Resource = Resource(
    fuseUtilization: real, minimumCore: real, energyToTarget: real, received: U32, counter: nat,
    profile: nat, horizon: nat, thermalReady: bool, fuseAuthority: bool, limpLatched: bool,
    fallback: bool, bootstrap: nat, valid: bool)

  datatype Bindings = Bindings(
    discharge: seq<nat>, charge: seq<nat>, dischargeSegment: seq<nat>, chargeSegment: seq<nat>,
    received: U32, counter: nat, valid: bool)

  predicate DirectionValid(flags: bv8) {
    Flag(flags, 1) && Flag(flags, 2) && !Flag(flags, 64) && !Flag(flags, 128)
  }

  function DecodeDirection(p: Payload): Direction {
    var ok := DirectionValid(p[1]);
    Direction(if ok then U16(p, 2) as real / 10.0 else 0.0, if ok then U16(p, 4) as real * 10.0 else 0.0,
              p[1], High(p[6]), Low(p[6]), ok)
  }

  function DecodeImmediate(b: seq<Payload>, counter: nat, now: U32): Immediate
    requires |b| == 4
  {
    Immediate(DecodeDirection(b[0]), DecodeDirection(b[1]), now, counter)
  }

  function DecodeSoh(p: Payload, counter: nat, now: U32): Soh {
    Soh(p[1] as int as real / 100.0, p[2] as int as real / 100.0, p[3] as int as real / 100.0, p[4] as int as real / 100.0, now, counter,
        p[5] as nat % 128, p[6] as nat % 128, Flag(p[5], 128), Flag(p[6], 128))
  }

  function DecodeEnvelope(p: Payload, counter: nat, now: U32): Envelope {
    Envelope([p[1] as int as real, p[2] as int as real, p[3] as int as real],
             [p[4] as int as real, p[5] as int as real, p[6] as int as real], now, counter)
  }

  function DecodeResource(p: Payload, now: U32): Resource {
    Resource(p[2] as int as real / 100.0, p[3] as int as real - 40.0, U16(p, 4) as real / 10.0, now, Counter(p),
             p[1] as nat % 4, p[1] as nat / 4 % 4, Flag(p[1], 16), Flag(p[1], 32), Flag(p[1], 64), Flag(p[1], 128),
             p[6] as nat, true)
  }

  function DecodeBindings(p: Payload, now: U32): Bindings {
    Bindings([High(p[1]), Low(p[1]), High(p[2])], [Low(p[2]), High(p[3]), Low(p[3])],
             [High(p[4]), Low(p[4]), High(p[5])], [Low(p[5]), High(p[6]), Low(p[6])], now, Counter(p), true)
  }

  /** Decoded limits are those on the wire, bounded by the contract, and zero when the direction is not
      authorised. */
  lemma DecodedLimitsBounded(slot: nat, p: Payload)
    requires slot <= 1 && LimitValid(slot, p)
    ensures var d := DecodeDirection(p);
      && 0.0 <= d.current <= (if slot == 0 then 120.0 else 15.0)
      && 0.0 <= d.power <= (if slot == 0 then 40000.0 else 5000.0)
      && d.current * 10.0 == U16(p, 2) as real && d.power == U16(p, 4) as real * 10.0
      && (!d.authorized ==> d.current == 0.0 && d.power == 0.0)
  {
  }
}
