/** The CRC-32 of the plant image (ams_hil_image_protocol.h): the reflected polynomial 0xEDB88320, initial
    value and final complement 0xFFFFFFFF, as in clause 3.2.9 of IEEE 802.3 and section 8 of RFC 1952.
    Bit i of a register is coefficient x^(31-i). */
module Crc32 {
  import Gf2

  const POLYNOMIAL: bv32 := 0xEDB88320
  const ALL: bv32 := 0xFFFFFFFF

  function Shift(r: bv32): bv32 {
    if r & 1 != 0 then (r >> 1) ^ POLYNOMIAL else r >> 1
  }

  function ShiftBy(r: bv32, n: nat): bv32
    decreases n
  {
    if n == 0 then r else ShiftBy(Shift(r), n - 1)
  }

  function FeedByte(r: bv32, b: bv8): bv32 { ShiftBy(r ^ b as bv32, 8) }

  function HighByte(w: bv16): bv8 { (w >> 8) as bv8 }

  function LowByte(w: bv16): bv8 { (w & 0xFF) as bv8 }

  function FeedWord(r: bv32, w: bv16): bv32 { FeedByte(FeedByte(r, HighByte(w)), LowByte(w)) }

  function Feed(r: bv32, words: seq<bv16>): bv32
    decreases |words|
  {
    if words == [] then r else Feed(FeedWord(r, words[0]), words[1..])
  }

  function Complement(r: bv32): bv32 { r ^ ALL }

  function Checksum(words: seq<bv16>): bv32 { Complement(Feed(ALL, words)) }

  method UpdateByte(crc: bv32, value: bv8) returns (r: bv32)
    ensures r == FeedByte(crc, value)
  {
    r := crc ^ value as bv32;
    for bit := 0 to 8
      invariant ShiftBy(r, 8 - bit) == FeedByte(crc, value)
    {
      var mask: bv32 := 0 - (r & 1);
      MaskedStep(r, mask);
      r := (r >> 1) ^ (POLYNOMIAL & mask);
    }
  }

  /** The branch-free step is the shift. */
  lemma MaskedStep(r: bv32, mask: bv32)
    requires mask == 0 - (r & 1)
    ensures (r >> 1) ^ (POLYNOMIAL & mask) == Shift(r)
  {
    assert r & 1 == 0 || r & 1 == 1;
    if r & 1 == 0 {
      assert mask == 0;
    } else {
      assert mask == ALL;
    }
  }

  method UpdateWord(crc: bv32, value: bv16) returns (r: bv32)
    ensures r == FeedWord(crc, value)
  {
    r := UpdateByte(crc, HighByte(value));
    r := UpdateByte(r, LowByte(value));
  }

  lemma {:induction false} FeedAppend(r: bv32, a: seq<bv16>, b: seq<bv16>)
    ensures Feed(r, a + b) == Feed(Feed(r, a), b)
    decreases |a|
  {
    if a == [] {
      assert a + b == b;
    } else {
      assert (a + b)[1..] == a[1..] + b;
      FeedAppend(FeedWord(r, a[0]), a[1..], b);
    }
  }

  lemma FeedOne(r: bv32, w: bv16)
    ensures Feed(r, [w]) == FeedWord(r, w)
  {
    assert [w][1..] == [];
  }

  // ----- registers as polynomials -----

  function Mask(i: nat): bv8 {
    if i == 0 then 0x01 else if i == 1 then 0x02 else if i == 2 then 0x04 else if i == 3 then 0x08
    else if i == 4 then 0x10 else if i == 5 then 0x20 else if i == 6 then 0x40 else 0x80
  }

  /** The bits of a byte in the order the register takes them, lowest first. */
  function ByteBits(b: bv8): (p: Gf2.Poly)
    ensures |p| == 8 && forall i | 0 <= i < 8 :: p[i] == (b & Mask(i) != 0)
  {
    seq(8, i requires 0 <= i < 8 => b & Mask(i) != 0)
  }

  function B0(r: bv32): bv8 { (r & 0xFF) as bv8 }

  function B1(r: bv32): bv8 { ((r >> 8) & 0xFF) as bv8 }

  function B2(r: bv32): bv8 { ((r >> 16) & 0xFF) as bv8 }

  function B3(r: bv32): bv8 { (r >> 24) as bv8 }

  function Bits(r: bv32): (p: Gf2.Poly)
    ensures |p| == 32
  {
    ByteBits(B0(r)) + ByteBits(B1(r)) + ByteBits(B2(r)) + ByteBits(B3(r))
  }

  lemma MaskXor(a: bv8, b: bv8, i: nat)
    requires i < 8
    ensures ((a ^ b) & Mask(i) != 0) == ((a & Mask(i) != 0) != (b & Mask(i) != 0))
  {
  }

  lemma ByteXor(a: bv8, b: bv8)
    ensures ByteBits(a ^ b) == Gf2.Xor(ByteBits(a), ByteBits(b))
  {
    forall i | 0 <= i < 8 ensures ByteBits(a ^ b)[i] == (ByteBits(a)[i] != ByteBits(b)[i]) { MaskXor(a, b, i); }
  }

  lemma BytesXor(a: bv32, b: bv32)
    ensures B0(a ^ b) == B0(a) ^ B0(b) && B1(a ^ b) == B1(a) ^ B1(b)
    ensures B2(a ^ b) == B2(a) ^ B2(b) && B3(a ^ b) == B3(a) ^ B3(b)
  {
  }

  lemma XorFour(a: Gf2.Poly, b: Gf2.Poly, c: Gf2.Poly, d: Gf2.Poly, e: Gf2.Poly, f: Gf2.Poly, g: Gf2.Poly, h: Gf2.Poly)
    requires |a| == |b| == |c| == |d| == |e| == |f| == |g| == |h| == 8
    ensures Gf2.Xor(a + b + c + d, e + f + g + h) == Gf2.Xor(a, e) + Gf2.Xor(b, f) + Gf2.Xor(c, g) + Gf2.Xor(d, h)
  {
  }

  lemma BitsXor(a: bv32, b: bv32)
    ensures Bits(a ^ b) == Gf2.Xor(Bits(a), Bits(b))
  {
    BytesXor(a, b);
    ByteXor(B0(a), B0(b));
    ByteXor(B1(a), B1(b));
    ByteXor(B2(a), B2(b));
    ByteXor(B3(a), B3(b));
    XorFour(ByteBits(B0(a)), ByteBits(B1(a)), ByteBits(B2(a)), ByteBits(B3(a)),
            ByteBits(B0(b)), ByteBits(B1(b)), ByteBits(B2(b)), ByteBits(B3(b)));
  }

  lemma MaskRight(low: bv8, high: bv8, i: nat)
    requires i < 8
    ensures (((low >> 1) | (high << 7)) & Mask(i) != 0) == (if i < 7 then low & Mask(i + 1) != 0 else high & 1 != 0)
  {
  }

  lemma ByteRight(low: bv8, high: bv8)
    ensures ByteBits((low >> 1) | (high << 7)) == ByteBits(low)[1..] + [ByteBits(high)[0]]
  {
    forall i | 0 <= i < 8
      ensures ByteBits((low >> 1) | (high << 7))[i] == (ByteBits(low)[1..] + [ByteBits(high)[0]])[i]
    {
      MaskRight(low, high, i);
    }
  }

  lemma BytesRight(r: bv32)
    ensures B0(r >> 1) == (B0(r) >> 1) | (B1(r) << 7) && B1(r >> 1) == (B1(r) >> 1) | (B2(r) << 7)
    ensures B2(r >> 1) == (B2(r) >> 1) | (B3(r) << 7) && B3(r >> 1) == (B3(r) >> 1) | ((0 as bv8) << 7)
  {
  }

  lemma RightBits(r: bv32)
    ensures Bits(r >> 1) == Bits(r)[1..] + [false]
  {
    BytesRight(r);
    ByteRight(B0(r), B1(r));
    ByteRight(B1(r), B2(r));
    ByteRight(B2(r), B3(r));
    ByteRight(B3(r), 0);
    Regrouped(ByteBits(B0(r)), ByteBits(B1(r)), ByteBits(B2(r)), ByteBits(B3(r)));
  }

  lemma Regrouped(a: Gf2.Poly, b: Gf2.Poly, c: Gf2.Poly, d: Gf2.Poly)
    requires |a| == |b| == |c| == |d| == 8
    ensures (a[1..] + [b[0]]) + (b[1..] + [c[0]]) + (c[1..] + [d[0]]) + (d[1..] + [false]) == (a + b + c + d)[1..] + [false]
  {
  }

  function Divisor(): (g: Gf2.Poly)
    ensures |g| == 32 && g[31]
  {
    Bits(POLYNOMIAL)
  }

  lemma LowestBit(r: bv32)
    ensures Bits(r)[0] == (r & 1 != 0)
  {
  }

  lemma ShiftBits(r: bv32)
    ensures Bits(Shift(r)) == Gf2.Shift(Divisor(), Bits(r))
  {
    RightBits(r);
    BitsXor(r >> 1, POLYNOMIAL);
    LowestBit(r);
  }

  lemma {:induction false} ShiftByBits(r: bv32, n: nat)
    ensures Bits(ShiftBy(r, n)) == Gf2.Feed(Divisor(), Bits(r), Gf2.Zeros(n))
    decreases n
  {
    if n > 0 {
      ShiftBits(r);
      assert Gf2.Zeros(n)[1..] == Gf2.Zeros(n - 1);
      assert Bits(r)[0 := Bits(r)[0] != false] == Bits(r);
      ShiftByBits(Shift(r), n - 1);
    }
  }

  lemma WidenedByte(b: bv8)
    ensures B0(b as bv32) == b && B1(b as bv32) == 0 && B2(b as bv32) == 0 && B3(b as bv32) == 0
  {
  }

  lemma BytePadded(b: bv8)
    ensures Gf2.Pad(ByteBits(b), 32) == Bits(b as bv32)
  {
    WidenedByte(b);
    assert ByteBits(0) == Gf2.Zeros(8);
  }

  lemma FeedByteBits(r: bv32, b: bv8)
    ensures Bits(FeedByte(r, b)) == Gf2.Feed(Divisor(), Bits(r), ByteBits(b))
  {
    BitsXor(r, b as bv32);
    ShiftByBits(r ^ b as bv32, 8);
    BytePadded(b);
    Gf2.FeedAtOnce(Divisor(), Bits(r), ByteBits(b));
  }

  function WordBits(w: bv16): (p: Gf2.Poly)
    ensures |p| == 16
  {
    ByteBits(HighByte(w)) + ByteBits(LowByte(w))
  }

  function AllBits(words: seq<bv16>): (p: Gf2.Poly)
    ensures |p| == 16 * |words|
    decreases |words|
  {
    if words == [] then [] else WordBits(words[0]) + AllBits(words[1..])
  }

  lemma FeedWordBits(r: bv32, w: bv16)
    ensures Bits(FeedWord(r, w)) == Gf2.Feed(Divisor(), Bits(r), WordBits(w))
  {
    FeedByteBits(r, HighByte(w));
    FeedByteBits(FeedByte(r, HighByte(w)), LowByte(w));
    Gf2.FeedAppend(Divisor(), Bits(r), ByteBits(HighByte(w)), ByteBits(LowByte(w)));
  }

  lemma {:induction false} FeedIsDivision(r: bv32, words: seq<bv16>)
    ensures Bits(Feed(r, words)) == Gf2.Feed(Divisor(), Bits(r), AllBits(words))
    decreases |words|
  {
    if words != [] {
      FeedWordBits(r, words[0]);
      Gf2.FeedAppend(Divisor(), Bits(r), WordBits(words[0]), AllBits(words[1..]));
      FeedIsDivision(FeedWord(r, words[0]), words[1..]);
    }
  }

  /** The register after any image, started from s, is the remainder, modulo the divisor, of the image shifted
      up 32 places with s added to its first 32 bits; no other register is. */
  lemma RegisterIsRemainder(s: bv32, words: seq<bv16>, r: bv32)
    ensures r == Feed(s, words) <==>
      Gf2.IsRemainder(Divisor(), Gf2.Dividend(Divisor(), Bits(s), AllBits(words)), Bits(r))
  {
    EqualBits(r, Feed(s, words));
    FeedIsDivision(s, words);
    Gf2.RegisterIsRemainder(Divisor(), Bits(s), AllBits(words), Bits(r));
  }

  // ----- detection -----

  lemma ByteBitsInjective(a: bv8, b: bv8)
    requires ByteBits(a) == ByteBits(b)
    ensures a == b
  {
    var p, q := ByteBits(a), ByteBits(b);
    assert p[0] == q[0] && p[1] == q[1] && p[2] == q[2] && p[3] == q[3];
    assert p[4] == q[4] && p[5] == q[5] && p[6] == q[6] && p[7] == q[7];
  }

  lemma FourParts(a: Gf2.Poly, b: Gf2.Poly, c: Gf2.Poly, d: Gf2.Poly, e: Gf2.Poly, f: Gf2.Poly, g: Gf2.Poly, h: Gf2.Poly)
    requires |a| == |b| == |c| == |d| == |e| == |f| == |g| == |h| == 8 && a + b + c + d == e + f + g + h
    ensures a == e && b == f && c == g && d == h
  {
    var p, q := a + b + c + d, e + f + g + h;
    assert p[..8] == a && p[8..16] == b && p[16..24] == c && p[24..] == d;
    assert q[..8] == e && q[8..16] == f && q[16..24] == g && q[24..] == h;
  }

  lemma BitsInjective(a: bv32, b: bv32)
    requires Bits(a) == Bits(b)
    ensures a == b
  {
    FourParts(ByteBits(B0(a)), ByteBits(B1(a)), ByteBits(B2(a)), ByteBits(B3(a)),
              ByteBits(B0(b)), ByteBits(B1(b)), ByteBits(B2(b)), ByteBits(B3(b)));
    ByteBitsInjective(B0(a), B0(b));
    ByteBitsInjective(B1(a), B1(b));
    ByteBitsInjective(B2(a), B2(b));
    ByteBitsInjective(B3(a), B3(b));
    FourBytes(a, b);
  }

  lemma EqualBits(a: bv32, b: bv32)
    ensures a == b <==> Bits(a) == Bits(b)
  {
    if Bits(a) == Bits(b) { BitsInjective(a, b); }
  }

  lemma FourBytes(a: bv32, b: bv32)
    requires B0(a) == B0(b) && B1(a) == B1(b) && B2(a) == B2(b) && B3(a) == B3(b)
    ensures a == b
  {
  }

  lemma TwoBytes(v: bv16, w: bv16)
    requires HighByte(v) == HighByte(w) && LowByte(v) == LowByte(w)
    ensures v == w
  {
  }

  lemma WordBitsInjective(v: bv16, w: bv16)
    requires WordBits(v) == WordBits(w)
    ensures v == w
  {
    var p, q := WordBits(v), WordBits(w);
    assert p[..8] == ByteBits(HighByte(v)) && q[..8] == ByteBits(HighByte(w));
    assert p[8..] == ByteBits(LowByte(v)) && q[8..] == ByteBits(LowByte(w));
    ByteBitsInjective(HighByte(v), HighByte(w));
    ByteBitsInjective(LowByte(v), LowByte(w));
    TwoBytes(v, w);
  }

  /** The bit positions at which two images differ. */
  ghost function Errors(v: seq<bv16>, w: seq<bv16>): (e: Gf2.Poly)
    requires |v| == |w|
    ensures |e| == 16 * |v|
  {
    Gf2.Xor(AllBits(v), AllBits(w))
  }

  lemma ComplementInjective(a: bv32, b: bv32, c: bv32, d: bv32)
    requires c == Complement(a) && d == Complement(b)
    ensures c == d <==> a == b
  {
  }

  lemma SameFeedIffClear(r: bv32, v: seq<bv16>, w: seq<bv16>)
    requires |v| == |w|
    ensures Feed(r, v) == Feed(r, w) <==> Gf2.IsZero(Gf2.Feed(Divisor(), Gf2.Zeros(32), Errors(v, w)))
  {
    EqualBits(Feed(r, v), Feed(r, w));
    FeedIsDivision(r, v);
    FeedIsDivision(r, w);
    Gf2.SameRegister(Divisor(), Bits(r), Bits(r), AllBits(v), AllBits(w));
    Gf2.XorSelf(Bits(r));
  }

  lemma SameChecksumIffClear(v: seq<bv16>, w: seq<bv16>)
    requires |v| == |w|
    ensures Checksum(v) == Checksum(w) <==> Gf2.IsZero(Gf2.Feed(Divisor(), Gf2.Zeros(32), Errors(v, w)))
  {
    SameChecksumIffSameFeed(v, w);
    SameFeedIffClear(ALL, v, w);
  }

  /** Two images of one length share a checksum exactly when their difference is a multiple of the divisor. */
  lemma SameChecksumIffMultiple(v: seq<bv16>, w: seq<bv16>)
    requires |v| == |w|
    ensures Checksum(v) == Checksum(w) <==> Gf2.IsMultiple(Divisor(), Errors(v, w))
  {
    SameChecksumIffClear(v, w);
    Gf2.ClearIffMultiple(Divisor(), Errors(v, w));
  }

  lemma SameChecksumIffSameFeed(v: seq<bv16>, w: seq<bv16>)
    ensures Checksum(v) == Checksum(w) <==> Feed(ALL, v) == Feed(ALL, w)
  {
    ComplementInjective(Feed(ALL, v), Feed(ALL, w), Checksum(v), Checksum(w));
  }

  /** A difference within 32 consecutive bits always changes the checksum. */
  lemma BurstChangesChecksum(v: seq<bv16>, w: seq<bv16>, i: nat)
    requires |v| == |w| && Gf2.Burst(Errors(v, w), 32, i)
    ensures Checksum(v) != Checksum(w)
  {
    SameChecksumIffClear(v, w);
    Gf2.BurstDetected(Divisor(), Errors(v, w), i);
  }

  // ----- one changed sample -----

  /** The rest of an image cannot undo a difference in the register. */
  lemma DifferenceStays(r: bv32, s: bv32, words: seq<bv16>)
    ensures Feed(r, words) == Feed(s, words) <==> r == s
  {
    var g, bits := Divisor(), AllBits(words);
    EqualBits(Feed(r, words), Feed(s, words));
    EqualBits(r, s);
    FeedIsDivision(r, words);
    FeedIsDivision(s, words);
    Gf2.SameRegister(g, Bits(r), Bits(s), bits, bits);
    Gf2.XorSelf(bits);
    Gf2.FeedZeros(g, Gf2.Xor(Bits(r), Bits(s)), |bits|);
    Gf2.SameIffClear(Bits(r), Bits(s));
  }

  lemma DifferentWord(r: bv32, v: bv16, w: bv16)
    ensures FeedWord(r, v) == FeedWord(r, w) <==> v == w
  {
    EqualBits(FeedWord(r, v), FeedWord(r, w));
    FeedWordBits(r, v);
    FeedWordBits(r, w);
    Gf2.SameRegister(Divisor(), Bits(r), Bits(r), WordBits(v), WordBits(w));
    Gf2.XorSelf(Bits(r));
    Gf2.ShortErrorDetected(Divisor(), Gf2.Xor(WordBits(v), WordBits(w)));
    Gf2.SameIffClear(WordBits(v), WordBits(w));
    if WordBits(v) == WordBits(w) { WordBitsInjective(v, w); }
  }

  /** Changing one sample to another value always changes the checksum. */
  lemma ChangedSampleDetected(v: seq<bv16>, i: nat, x: bv16)
    requires i < |v| && v[i] != x
    ensures Checksum(v) != Checksum(v[i := x])
  {
    var w := v[i := x];
    assert v == v[..i] + ([v[i]] + v[i + 1..]) && w == v[..i] + ([x] + v[i + 1..]);
    FeedAppend(ALL, v[..i], [v[i]] + v[i + 1..]);
    FeedAppend(ALL, v[..i], [x] + v[i + 1..]);
    var r := Feed(ALL, v[..i]);
    FeedHead(r, v[i], v[i + 1..]);
    FeedHead(r, x, v[i + 1..]);
    DifferentWord(r, v[i], x);
    DifferenceStays(FeedWord(r, v[i]), FeedWord(r, x), v[i + 1..]);
    SameChecksumIffSameFeed(v, w);
  }

  lemma FeedHead(r: bv32, w: bv16, rest: seq<bv16>)
    ensures Feed(r, [w] + rest) == Feed(FeedWord(r, w), rest)
  {
    assert ([w] + rest)[1..] == rest;
  }
}
