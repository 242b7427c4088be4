/** The rules of the power frames on the bits of the wire, as the consumer masks them: exactly which frames pass, and which check
    the others fail first. */
module PowerRules {
  import opened Bytes
  import Crc8
  import opened PowerFrames
  import opened PowerSender

  /** Two bytes as one number, high byte first. */
  function Word(high: bv8, low: bv8): nat { 256 * (high as nat) + low as nat }

  /** Segments are numbered 0 to 4, or 15 for none. */
  predicate SegmentBits(n: bv8) { n <= 4 || n == 15 }

  lemma SegmentBitsAre(n: bv8)
    ensures SegmentBits(n) <==> SegmentValid(n as nat)
  {
  }

  lemma NibblesAre(b: bv8)
    ensures High(b) <= 14 <==> b >> 4 <= 14
    ensures Low(b) <= 14 <==> b & 0x0F <= 14
    ensures SegmentValid(High(b)) <==> SegmentBits(b >> 4)
    ensures SegmentValid(Low(b)) <==> SegmentBits(b & 0x0F)
  {
    HighNibble(b);
    SegmentBitsAre(b >> 4);
    SegmentBitsAre(b & 0x0F);
  }

  // ----- limit frames -----

  /** Valid and authority flags agree and exclude fallback; limits within the contract, zero unless the direction is valid and
      neither inhibited nor in fallback; known binding and segment. */
  predicate LimitBits(p: Payload, greatestCurrent: nat, greatestPower: nat) {
    var valid, inhibited, fallback := p[1] & 0x01 != 0, p[1] & 0x40 != 0, p[1] & 0x80 != 0;
    && valid == (p[1] & 0x02 != 0) && !(valid && fallback)
    && Word(p[2], p[3]) <= greatestCurrent && Word(p[4], p[5]) <= greatestPower
    && p[6] >> 4 <= 14 && SegmentBits(p[6] & 0x0F)
    && (!valid || inhibited || fallback ==> Word(p[2], p[3]) == 0 && Word(p[4], p[5]) == 0)
  }

  lemma LimitRules(slot: nat, p: Payload)
    ensures LimitValid(slot, p) <==> LimitBits(p, if slot == 0 then 1200 else 150, if slot == 0 then 4000 else 500)
  {
    FlagMeans(p[1]);
    NibblesAre(p[6]);
  }

  // ----- state of health and envelope -----

  predicate SohBits(p: Payload) {
    && p[1] <= 110 && p[2] <= 100 && p[4] <= 100 && p[5] & 0x7F <= 100 && p[6] & 0x7F <= 100
    && (p[5] & 0x80 != 0 ==> 50 <= p[1] && 50 <= p[2] && p[2] <= p[1])
    && (p[6] & 0x80 != 0 ==> 100 <= p[3])
  }

  lemma AtMost(b: bv8, c: bv8)
    ensures b as nat <= c as nat <==> b <= c
  {
  }

  lemma LowSevenAtMost(b: bv8)
    ensures b as nat % 128 <= 100 <==> b & 0x7F <= 100
  {
    LowSeven(b);
    AtMost(b & 0x7F, 100);
  }

  lemma SohBounds(p: Payload)
    ensures (p[1] as nat <= 110 <==> p[1] <= 110) && (p[2] as nat <= 100 <==> p[2] <= 100) && (p[4] as nat <= 100 <==> p[4] <= 100)
    ensures (50 <= p[1] as nat <==> 50 <= p[1]) && (50 <= p[2] as nat <==> 50 <= p[2]) && (p[2] as nat <= p[1] as nat <==> p[2] <= p[1])
    ensures 100 <= p[3] as nat <==> 100 <= p[3]
  {
    AtMost(p[1], 110);
    AtMost(p[2], 100);
    AtMost(p[4], 100);
    AtMost(50, p[1]);
    AtMost(50, p[2]);
    AtMost(p[2], p[1]);
    AtMost(100, p[3]);
  }

  lemma SohRules(p: Payload)
    ensures SohValid(p) <==> SohBits(p)
  {
    SohBounds(p);
    LowSevenAtMost(p[5]);
    LowSevenAtMost(p[6]);
    Number128(p[5]);
    Number128(p[6]);
  }

  /** Whole amperes that do not grow with the horizon. */
  predicate EnvelopeBits(p: Payload) {
    120 >= p[1] >= p[2] >= p[3] && 15 >= p[4] >= p[5] >= p[6]
  }

  lemma EnvelopeRules(p: Payload)
    ensures EnvelopeValid(p) <==> EnvelopeBits(p)
  {
    AtMost(p[1], 120);
    AtMost(p[2], 120);
    AtMost(p[3], 120);
    AtMost(p[4], 15);
    AtMost(p[5], 15);
    AtMost(p[6], 15);
  }

  // ----- advisory frames -----

  /** One of the three known profiles, and a progress in per cent. */
  predicate StrategyBits(p: Payload) { p[1] & 0x03 != 3 && p[6] <= 100 }

  lemma StrategyRules(p: Payload)
    ensures StrategyValid(p) <==> StrategyBits(p)
  {
    LowFours(p[1]);
    AtMost(p[6], 100);
    AtMost(p[1] & 0x03, 2);
    assert p[1] & 0x03 <= 3;
  }

  predicate BindingsBits(p: Payload) {
    && p[1] >> 4 <= 14 && p[1] & 0x0F <= 14 && p[2] >> 4 <= 14 && p[2] & 0x0F <= 14 && p[3] >> 4 <= 14 && p[3] & 0x0F <= 14
    && SegmentBits(p[4] >> 4) && SegmentBits(p[4] & 0x0F) && SegmentBits(p[5] >> 4) && SegmentBits(p[5] & 0x0F)
    && SegmentBits(p[6] >> 4) && SegmentBits(p[6] & 0x0F)
  }

  lemma BindingsRules(p: Payload)
    ensures BindingsValid(p) <==> BindingsBits(p)
  {
    forall i | 1 <= i <= 6
      ensures (High(p[i]) <= 14 <==> p[i] >> 4 <= 14) && (Low(p[i]) <= 14 <==> p[i] & 0x0F <= 14)
      ensures (SegmentValid(High(p[i])) <==> SegmentBits(p[i] >> 4)) && (SegmentValid(Low(p[i])) <==> SegmentBits(p[i] & 0x0F))
    {
      NibblesAre(p[i]);
    }
  }

  // ----- whole frames -----

  /** The content rules of each identifier; every other identifier is unknown. */
  predicate ContentRules(id: bv16, p: Payload) {
    if id == 0x684 then LimitBits(p, 1200, 4000) else if id == 0x685 then LimitBits(p, 150, 500)
    else if id == 0x686 then SohBits(p) else if id == 0x687 then EnvelopeBits(p)
    else if id == 0x689 then StrategyBits(p) else if id == 0x68A then BindingsBits(p)
    else false
  }

  lemma ContentIs(f: Frame)
    ensures ContentRules(f.id, f.payload) <==>
      match KindOf(f.id)
      case CoreFrame(slot) => CoreValid(slot, f.payload)
      case StrategyFrame => StrategyValid(f.payload)
      case BindingsFrame => BindingsValid(f.payload)
      case OtherFrame => false
  {
    match KindOf(f.id)
    case CoreFrame(slot) =>
      if slot <= 1 { LimitRules(slot, f.payload); } else if slot == 2 { SohRules(f.payload); } else { EnvelopeRules(f.payload); }
    case StrategyFrame => StrategyRules(f.payload);
    case BindingsFrame => BindingsRules(f.payload);
    case OtherFrame =>
  }

  lemma VersionBits(p: Payload)
    ensures Version(p) == 2 <==> p[0] >> 4 == 2
  {
    HighNibble(p[0]);
  }

  /** The first check that a frame fails: its format, the version in the high half of its first byte, the checksum in its last byte,
      or the rules for its content. */
  lemma FirstFailedCheck(f: Frame)
    ensures var plain, version := !f.extended && !f.remote && f.dlc == 8, f.payload[0] >> 4 == 2;
      var sealed := f.payload[7] == Crc8.Checksum(f.id, f.payload);
      && (FrameVerdict(f) == Malformed <==> !plain)
      && (FrameVerdict(f) == BadVersion <==> plain && !version)
      && (FrameVerdict(f) == BadCrc <==> plain && version && !sealed)
      && (FrameVerdict(f) == BadFrame <==> plain && version && sealed && !ContentRules(f.id, f.payload))
      && (FrameVerdict(f) == Good <==> plain && version && sealed && ContentRules(f.id, f.payload))
  {
    VersionBits(f.payload);
    ContentIs(f);
  }

  /** The identifiers 0x684 to 0x687 fill the four places of a bundle in order; 0x689 and 0x68A are advisory. */
  lemma Identifiers(id: bv16)
    ensures KindOf(id) == CoreFrame(0) <==> id == 0x684
    ensures KindOf(id) == CoreFrame(1) <==> id == 0x685
    ensures KindOf(id) == CoreFrame(2) <==> id == 0x686
    ensures KindOf(id) == CoreFrame(3) <==> id == 0x687
    ensures KindOf(id).StrategyFrame? <==> id == 0x689
    ensures KindOf(id).BindingsFrame? <==> id == 0x68A
  {
  }
}
