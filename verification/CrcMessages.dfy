/** Which bits the two checksums cover, in which order, and that their polynomials are the standard ones, said of numbers
    and their bits alone. */
module CrcMessages {
  import opened Bytes
  import Crc8
  import Crc32
  import Gf2

  // ----- the frame checksum -----

  /** The identifier's sixteen bits, most significant first, and then those of seven payload bytes. */
  ghost predicate IsMessage(bits: Gf2.Poly, id: bv16, payload: seq<bv8>)
    requires |payload| >= 7
  {
    && |bits| == 72
    && (forall k | 0 <= k < 16 :: bits[k] <==> BitOf(id as nat, 15 - k))
    && (forall k | 16 <= k < 72 :: bits[k] <==> BitOf(payload[(k - 16) / 8] as nat, 7 - (k - 16) % 8))
  }

  /** The bits of a byte, most significant first. */
  ghost predicate IsByte(bits: Gf2.Poly, b: bv8) { |bits| == 8 && forall i | 0 <= i < 8 :: bits[i] <==> BitOf(b as nat, 7 - i) }

  lemma Bit0(b: bv8)
    ensures Crc8.Bits(b)[0] <==> BitOf(b as nat, 7)
  {
    Number128(b);
    ByteBitOf(b as nat, 7);
  }

  lemma Bit1(b: bv8)
    ensures Crc8.Bits(b)[1] <==> BitOf(b as nat, 6)
  {
    Number64(b);
    ByteBitOf(b as nat, 6);
  }

  lemma Bit2(b: bv8)
    ensures Crc8.Bits(b)[2] <==> BitOf(b as nat, 5)
  {
    Number32(b);
    ByteBitOf(b as nat, 5);
  }

  lemma Bit3(b: bv8)
    ensures Crc8.Bits(b)[3] <==> BitOf(b as nat, 4)
  {
    Number16(b);
    ByteBitOf(b as nat, 4);
  }

  lemma Bit4(b: bv8)
    ensures Crc8.Bits(b)[4] <==> BitOf(b as nat, 3)
  {
    Number8(b);
    ByteBitOf(b as nat, 3);
  }

  lemma Bit5(b: bv8)
    ensures Crc8.Bits(b)[5] <==> BitOf(b as nat, 2)
  {
    Number4(b);
    ByteBitOf(b as nat, 2);
  }

  lemma Bit6(b: bv8)
    ensures Crc8.Bits(b)[6] <==> BitOf(b as nat, 1)
  {
    Number2(b);
    ByteBitOf(b as nat, 1);
  }

  lemma Bit7(b: bv8)
    ensures Crc8.Bits(b)[7] <==> BitOf(b as nat, 0)
  {
    Number1(b);
    ByteBitOf(b as nat, 0);
  }

  lemma ByteBit(b: bv8, i: nat)
    requires i < 8
    ensures Crc8.Bits(b)[i] <==> BitOf(b as nat, 7 - i)
  {
    if i == 0 { Bit0(b); } else if i == 1 { Bit1(b); } else if i == 2 { Bit2(b); } else if i == 3 { Bit3(b); }
    else if i == 4 { Bit4(b); } else if i == 5 { Bit5(b); } else if i == 6 { Bit6(b); } else { Bit7(b); }
  }

  lemma ByteIs(bits: Gf2.Poly, b: bv8)
    requires IsByte(bits, b)
    ensures bits == Crc8.Bits(b)
  {
    forall i | 0 <= i < 8 ensures bits[i] == Crc8.Bits(b)[i] { ByteBit(b, i); }
  }

  lemma {:induction false} ByteInMessage(bytes: seq<bv8>, k: nat)
    requires k < 8 * |bytes|
    ensures Crc8.AllBits(bytes)[k] == Crc8.Bits(bytes[k / 8])[k % 8]
    decreases |bytes|
  {
    if k >= 8 {
      ByteInMessage(bytes[1..], k - 8);
      assert k / 8 == (k - 8) / 8 + 1 && k % 8 == (k - 8) % 8;
      assert bytes[1..][(k - 8) / 8] == bytes[k / 8];
    }
  }

  lemma JoinedBit(h: bv8, l: bv8, v: nat, k: nat)
    requires k < 16 && v == 256 * (h as nat) + l as nat
    ensures BitOf(v, 15 - k) <==> (if k < 8 then Crc8.Bits(h)[k] else Crc8.Bits(l)[k - 8])
  {
    if k < 8 {
      WordBits(h as nat, l as nat, 7 - k);
      ByteBit(h, k);
    } else {
      WordBits(h as nat, l as nat, 15 - k);
      ByteBit(l, k - 8);
    }
  }

  lemma IdentifierBit(id: bv16, k: nat)
    requires k < 16
    ensures BitOf(id as nat, 15 - k) <==> (if k < 8 then Crc8.Bits((id >> 8) as bv8)[k] else Crc8.Bits((id & 0xFF) as bv8)[k - 8])
  {
    WordNumber(id);
    JoinedBit((id >> 8) as bv8, (id & 0xFF) as bv8, id as nat, k);
  }

  lemma MessageIs(bits: Gf2.Poly, id: bv16, payload: seq<bv8>)
    requires |payload| >= 7 && IsMessage(bits, id, payload)
    ensures bits == Crc8.AllBits(Crc8.Covered(id, payload))
  {
    var covered := Crc8.Covered(id, payload);
    forall k | 0 <= k < 72 ensures bits[k] == Crc8.AllBits(covered)[k] {
      ByteInMessage(covered, k);
      if k < 16 {
        IdentifierBit(id, k);
      } else {
        assert covered[k / 8] == payload[(k - 16) / 8];
        ByteBit(payload[(k - 16) / 8], k % 8);
      }
    }
  }

  /** The polynomial 0x11D below its leading term. */
  const SAE_J1850: Gf2.Poly := [false, false, false, true, true, true, false, true]

  /** A byte is the checksum of a frame exactly when its complement is the remainder, modulo 0x11D, of the identifier's bits
      and the payload's, shifted up eight places with the first eight complemented. */
  lemma FrameChecksum(id: bv16, payload: seq<bv8>, message: Gf2.Poly, crc: bv8, check: Gf2.Poly)
    requires |payload| >= 7 && IsMessage(message, id, payload) && IsByte(check, crc)
    ensures crc == Crc8.Checksum(id, payload) <==>
      Gf2.IsRemainder(SAE_J1850, Gf2.Dividend(SAE_J1850, Crc8.ONES, message), Gf2.Xor(check, Crc8.ONES))
  {
    MessageIs(message, id, payload);
    ByteIs(check, crc);
    Crc8.ChecksumIsRemainder(id, payload, crc);
    assert Crc8.Divisor() == SAE_J1850;
  }

  lemma EightShifts(r: bv8, b: bv8, x: bv8)
    requires x == Crc8.Shift(Crc8.Shift(Crc8.Shift(Crc8.Shift(r ^ b))))
    ensures Crc8.FeedByte(r, b) == Crc8.Shift(Crc8.Shift(Crc8.Shift(Crc8.Shift(x))))
  {
  }

  lemma KnownHead()
    ensures Crc8.FeedByte(0xFF, 0x06) == 0x8A && Crc8.FeedByte(0x8A, 0x84) == 0xA6 && Crc8.FeedByte(0xA6, 0x20) == 0x68
  {
    EightShifts(0xFF, 0x06, 0x2B);
    EightShifts(0x8A, 0x84, 0xE0);
    EightShifts(0xA6, 0x20, 0x88);
  }

  lemma KnownTail()
    ensures Crc8.FeedByte(0x68, 0) == 0x7C && Crc8.FeedByte(0x7C, 0) == 0xC5 && Crc8.FeedByte(0xC5, 0) == 0x5C
  {
    EightShifts(0x68, 0, 0xCE);
    EightShifts(0x7C, 0, 0x93);
    EightShifts(0xC5, 0, 0xCC);
  }

  lemma KnownEnd()
    ensures Crc8.FeedByte(0x5C, 0) == 0x42 && Crc8.FeedByte(0x42, 0) == 0x29 && Crc8.FeedByte(0x29, 0) == 0x72
  {
    EightShifts(0x5C, 0, 0xA9);
    EightShifts(0x42, 0, 0x54);
    EightShifts(0x29, 0, 0xAA);
  }

  lemma FeedOne(r: bv8, b: bv8, rest: seq<bv8>)
    ensures Crc8.Feed(r, [b] + rest) == Crc8.Feed(Crc8.FeedByte(r, b), rest)
  {
    assert ([b] + rest)[1..] == rest;
  }

  lemma FeedThree(r: bv8, a: bv8, b: bv8, c: bv8, rest: seq<bv8>)
    ensures Crc8.Feed(r, [a, b, c] + rest) == Crc8.Feed(Crc8.FeedByte(Crc8.FeedByte(Crc8.FeedByte(r, a), b), c), rest)
  {
    assert [a, b, c] + rest == [a] + ([b] + ([c] + rest));
    FeedOne(r, a, [b] + ([c] + rest));
    FeedOne(Crc8.FeedByte(r, a), b, [c] + rest);
    FeedOne(Crc8.FeedByte(Crc8.FeedByte(r, a), b), c, rest);
  }

  /** A discharge limit frame of version 2 with all other fields zero carries this checksum. */
  lemma KnownFrame(payload: seq<bv8>)
    requires payload == [0x20, 0, 0, 0, 0, 0, 0]
    ensures Crc8.Checksum(0x684, payload) == 0x8D
  {
    KnownHead();
    KnownTail();
    KnownEnd();
    FeedThree(0xFF, 0x06, 0x84, 0x20, [0, 0, 0] + ([0, 0, 0] + []));
    FeedThree(0x68, 0, 0, 0, [0, 0, 0] + []);
    FeedThree(0x5C, 0, 0, 0, []);
    assert Crc8.Covered(0x684, payload) == [0x06, 0x84, 0x20] + ([0, 0, 0] + ([0, 0, 0] + []));
  }

  // ----- the image checksum -----

  /** The bits of every sample in order: its high byte first, and of each byte the least significant bit first. */
  ghost predicate IsImage(bits: Gf2.Poly, words: seq<bv16>) {
    && |bits| == 16 * |words|
    && forall k | 0 <= k < |bits| :: bits[k] <==> BitOf(words[k / 16] as nat, if k % 16 < 8 then k % 16 + 8 else k % 16 - 8)
  }

  /** The bits of a 32-bit number, least significant first. */
  ghost predicate IsRegister(bits: Gf2.Poly, r: bv32) { |bits| == 32 && forall i | 0 <= i < 32 :: bits[i] <==> BitOf(r as nat, i) }

  lemma Low0(b: bv8)
    ensures Crc32.ByteBits(b)[0] <==> BitOf(b as nat, 0)
  {
    Number1(b);
    ByteBitOf(b as nat, 0);
  }

  lemma Low1(b: bv8)
    ensures Crc32.ByteBits(b)[1] <==> BitOf(b as nat, 1)
  {
    Number2(b);
    ByteBitOf(b as nat, 1);
  }

  lemma Low2(b: bv8)
    ensures Crc32.ByteBits(b)[2] <==> BitOf(b as nat, 2)
  {
    Number4(b);
    ByteBitOf(b as nat, 2);
  }

  lemma Low3(b: bv8)
    ensures Crc32.ByteBits(b)[3] <==> BitOf(b as nat, 3)
  {
    Number8(b);
    ByteBitOf(b as nat, 3);
  }

  lemma Low4(b: bv8)
    ensures Crc32.ByteBits(b)[4] <==> BitOf(b as nat, 4)
  {
    Number16(b);
    ByteBitOf(b as nat, 4);
  }

  lemma Low5(b: bv8)
    ensures Crc32.ByteBits(b)[5] <==> BitOf(b as nat, 5)
  {
    Number32(b);
    ByteBitOf(b as nat, 5);
  }

  lemma Low6(b: bv8)
    ensures Crc32.ByteBits(b)[6] <==> BitOf(b as nat, 6)
  {
    Number64(b);
    ByteBitOf(b as nat, 6);
  }

  lemma Low7(b: bv8)
    ensures Crc32.ByteBits(b)[7] <==> BitOf(b as nat, 7)
  {
    Number128(b);
    ByteBitOf(b as nat, 7);
  }

  lemma LowBit(b: bv8, i: nat)
    requires i < 8
    ensures Crc32.ByteBits(b)[i] <==> BitOf(b as nat, i)
  {
    if i == 0 { Low0(b); } else if i == 1 { Low1(b); } else if i == 2 { Low2(b); } else if i == 3 { Low3(b); }
    else if i == 4 { Low4(b); } else if i == 5 { Low5(b); } else if i == 6 { Low6(b); } else { Low7(b); }
  }

  lemma SampleHigh(h: bv8, l: nat, i: nat)
    requires i < 8 && l < 256
    ensures Crc32.ByteBits(h)[i] <==> BitOf(256 * (h as nat) + l, i + 8)
  {
    WordBits(h as nat, l, i);
    LowBit(h, i);
  }

  lemma SampleLow(h: nat, l: bv8, i: nat)
    requires i < 8
    ensures Crc32.ByteBits(l)[i] <==> BitOf(256 * h + l as nat, i)
  {
    WordBits(h, l as nat, i);
    LowBit(l, i);
  }

  lemma SampleBit(h: bv8, l: bv8, v: nat, i: nat)
    requires i < 16 && v == 256 * (h as nat) + l as nat
    ensures (if i < 8 then Crc32.ByteBits(h)[i] else Crc32.ByteBits(l)[i - 8]) <==> BitOf(v, if i < 8 then i + 8 else i - 8)
  {
    if i < 8 { SampleHigh(h, l as nat, i); } else { SampleLow(h as nat, l, i - 8); }
  }

  lemma HalvesAt(w: bv16, h: bv8, l: bv8, i: nat)
    requires i < 16 && h == Crc32.HighByte(w) && l == Crc32.LowByte(w)
    ensures Crc32.WordBits(w)[i] == if i < 8 then Crc32.ByteBits(h)[i] else Crc32.ByteBits(l)[i - 8]
  {
  }

  lemma WordBit(w: bv16, i: nat)
    requires i < 16
    ensures Crc32.WordBits(w)[i] <==> BitOf(w as nat, if i < 8 then i + 8 else i - 8)
  {
    var h, l := Crc32.HighByte(w), Crc32.LowByte(w);
    WordNumber(w);
    HalvesAt(w, h, l, i);
    SampleBit(h, l, w as nat, i);
  }

  lemma {:induction false} WordInImage(words: seq<bv16>, k: nat)
    requires k < 16 * |words|
    ensures Crc32.AllBits(words)[k] == Crc32.WordBits(words[k / 16])[k % 16]
    decreases |words|
  {
    if k >= 16 {
      WordInImage(words[1..], k - 16);
      assert k / 16 == (k - 16) / 16 + 1 && k % 16 == (k - 16) % 16;
      assert words[1..][(k - 16) / 16] == words[k / 16];
    }
  }

  lemma ImageIs(bits: Gf2.Poly, words: seq<bv16>)
    requires IsImage(bits, words)
    ensures bits == Crc32.AllBits(words)
  {
    forall k | 0 <= k < |bits| ensures bits[k] == Crc32.AllBits(words)[k] {
      WordInImage(words, k);
      WordBit(words[k / 16], k % 16);
    }
  }

  lemma Above(h: nat, l: nat, n: nat)
    requires l < 256 && n >= 8
    ensures BitOf(256 * h + l, n) == BitOf(h, n - 8)
  {
    assert (256 * h + l) / 256 == h;
  }

  lemma FourParts(a: Gf2.Poly, b: Gf2.Poly, c: Gf2.Poly, d: Gf2.Poly, i: nat)
    requires |a| == |b| == |c| == |d| == 8 && i < 32
    ensures (a + b + c + d)[i] == if i < 8 then a[i] else if i < 16 then b[i - 8] else if i < 24 then c[i - 16] else d[i - 24]
  {
  }

  lemma LowPair(b0: bv8, b1: bv8, top: nat, v: nat, i: nat)
    requires i < 16 && v == 256 * (256 * top + b1 as nat) + b0 as nat
    ensures (if i < 8 then Crc32.ByteBits(b0)[i] else Crc32.ByteBits(b1)[i - 8]) <==> BitOf(v, i)
  {
    if i < 8 {
      SampleLow(256 * top + b1 as nat, b0, i);
    } else {
      Above(256 * top + b1 as nat, b0 as nat, i);
      SampleLow(top, b1, i - 8);
    }
  }

  lemma HighPair(b2: bv8, b3: bv8, l1: nat, l0: nat, v: nat, i: nat)
    requires 16 <= i < 32 && l0 < 256 && l1 < 256 && v == 256 * (256 * (256 * (b3 as nat) + b2 as nat) + l1) + l0
    ensures (if i < 24 then Crc32.ByteBits(b2)[i - 16] else Crc32.ByteBits(b3)[i - 24]) <==> BitOf(v, i)
  {
    var top := 256 * (b3 as nat) + b2 as nat;
    Above(256 * top + l1, l0, i);
    Above(top, l1, i - 8);
    LowPair(b2, b3, 0, top, i - 16);
  }

  lemma HighWordNumber(h: bv16, l: bv16)
    ensures (((h as bv32) << 16) | (l as bv32)) as nat == 65536 * (h as nat) + l as nat
  {
  }

  lemma Halves(r: bv32, h: bv16, l: bv16)
    requires h == (r >> 16) as bv16 && l == (r & 0xFFFF) as bv16
    ensures r == ((h as bv32) << 16) | (l as bv32)
    ensures (h >> 8) as bv8 == Crc32.B3(r) && (h & 0xFF) as bv8 == Crc32.B2(r)
    ensures (l >> 8) as bv8 == Crc32.B1(r) && (l & 0xFF) as bv8 == Crc32.B0(r)
  {
  }

  lemma RegisterNumber(r: bv32)
    ensures r as nat == 256 * (256 * (256 * (Crc32.B3(r) as nat) + Crc32.B2(r) as nat) + Crc32.B1(r) as nat) + Crc32.B0(r) as nat
  {
    var h, l := (r >> 16) as bv16, (r & 0xFFFF) as bv16;
    Halves(r, h, l);
    HighWordNumber(h, l);
    WordNumber(h);
    WordNumber(l);
  }

  lemma FourByteBit(b0: bv8, b1: bv8, b2: bv8, b3: bv8, v: nat, i: nat)
    requires i < 32 && v == 256 * (256 * (256 * (b3 as nat) + b2 as nat) + b1 as nat) + b0 as nat
    ensures (Crc32.ByteBits(b0) + Crc32.ByteBits(b1) + Crc32.ByteBits(b2) + Crc32.ByteBits(b3))[i] <==> BitOf(v, i)
  {
    FourParts(Crc32.ByteBits(b0), Crc32.ByteBits(b1), Crc32.ByteBits(b2), Crc32.ByteBits(b3), i);
    if i < 16 {
      LowPair(b0, b1, 256 * (b3 as nat) + b2 as nat, v, i);
    } else {
      HighPair(b2, b3, b1 as nat, b0 as nat, v, i);
    }
  }

  lemma RegisterBit(r: bv32, i: nat)
    requires i < 32
    ensures Crc32.Bits(r)[i] <==> BitOf(r as nat, i)
  {
    RegisterNumber(r);
    FourByteBit(Crc32.B0(r), Crc32.B1(r), Crc32.B2(r), Crc32.B3(r), r as nat, i);
  }

  lemma RegisterIs(bits: Gf2.Poly, r: bv32)
    requires IsRegister(bits, r)
    ensures bits == Crc32.Bits(r)
  {
    forall i | 0 <= i < 32 ensures bits[i] == Crc32.Bits(r)[i] { RegisterBit(r, i); }
  }

  /** The polynomial 0x04C11DB7 below its leading term. */
  const IEEE_802_3: Gf2.Poly := [
    false, false, false, false, false, true, false, false, true, true, false, false, false, false, false, true,
    false, false, false, true, true, true, false, true, true, false, true, true, false, true, true, true]

  ghost predicate AllOnes(p: Gf2.Poly) { |p| == 32 && forall i | 0 <= i < 32 :: p[i] }

  lemma DivisorIs()
    ensures Crc32.Divisor() == IEEE_802_3
  {
    assert Crc32.B0(Crc32.POLYNOMIAL) == 0x20 && Crc32.B1(Crc32.POLYNOMIAL) == 0x83;
    assert Crc32.B2(Crc32.POLYNOMIAL) == 0xB8 && Crc32.B3(Crc32.POLYNOMIAL) == 0xED;
    assert Crc32.ByteBits(0x20) == [false, false, false, false, false, true, false, false];
    assert Crc32.ByteBits(0x83) == [true, true, false, false, false, false, false, true];
    assert Crc32.ByteBits(0xB8) == [false, false, false, true, true, true, false, true];
    assert Crc32.ByteBits(0xED) == [true, false, true, true, false, true, true, true];
  }

  lemma OnesAre(p: Gf2.Poly)
    requires AllOnes(p)
    ensures Crc32.Bits(Crc32.ALL) == p
  {
    assert Crc32.B0(Crc32.ALL) == 0xFF && Crc32.B1(Crc32.ALL) == 0xFF && Crc32.B2(Crc32.ALL) == 0xFF && Crc32.B3(Crc32.ALL) == 0xFF;
    assert Crc32.ByteBits(0xFF) == [true, true, true, true, true, true, true, true];
  }

  lemma FlipTwice(a: Gf2.Poly, b: Gf2.Poly, ones: Gf2.Poly)
    requires |a| == |b| == 32 && AllOnes(ones)
    ensures a == Gf2.Xor(b, ones) <==> Gf2.Xor(a, ones) == b
  {
    if a == Gf2.Xor(b, ones) { assert Gf2.Xor(a, ones) == b; }
    if Gf2.Xor(a, ones) == b { assert a == Gf2.Xor(b, ones); }
  }

  lemma Flipped(a: bv32, r: bv32, x: bv32, y: bv32, ones: Gf2.Poly)
    requires AllOnes(ones) && Crc32.Bits(x) == Gf2.Xor(Crc32.Bits(r), ones) && Crc32.Bits(y) == Gf2.Xor(Crc32.Bits(a), ones)
    ensures a == x <==> y == r
  {
    FlipTwice(Crc32.Bits(a), Crc32.Bits(r), ones);
    Crc32.EqualBits(a, x);
    Crc32.EqualBits(y, r);
  }

  lemma ComplementBits(r: bv32, ones: Gf2.Poly)
    requires AllOnes(ones)
    ensures Crc32.Bits(Crc32.Complement(r)) == Gf2.Xor(Crc32.Bits(r), ones)
  {
    OnesAre(ones);
    Crc32.BitsXor(r, Crc32.ALL);
  }

  /** A number is the checksum of an image exactly when its complement is the remainder, modulo 0x104C11DB7, of the image's bits
      shifted up 32 places with the first 32 complemented. */
  lemma ImageChecksum(words: seq<bv16>, message: Gf2.Poly, crc: bv32, check: Gf2.Poly, ones: Gf2.Poly)
    requires IsImage(message, words) && IsRegister(check, crc) && AllOnes(ones)
    ensures crc == Crc32.Checksum(words) <==>
      Gf2.IsRemainder(IEEE_802_3, Gf2.Dividend(IEEE_802_3, ones, message), Gf2.Xor(check, ones))
  {
    var f, r := Crc32.Feed(Crc32.ALL, words), Crc32.Complement(crc);
    ImageIs(message, words);
    RegisterIs(check, crc);
    DivisorIs();
    OnesAre(ones);
    Crc32.RegisterIsRemainder(Crc32.ALL, words, r);
    ComplementBits(crc, ones);
    ComplementBits(f, ones);
    Flipped(crc, f, Crc32.Complement(f), r, ones);
  }
}
