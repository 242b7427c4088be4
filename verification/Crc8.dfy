/** The CRC-8 of the power frames (ecu_power_consumer.c): polynomial 0x11D, initial value and final
    complement 0xFF, as in section 7.2.1.1 of the AUTOSAR Specification of CRC Routines (SAE J1850). */
module Crc8 {
  import Gf2

  function Shift(r: bv8): bv8 {
    if r & 0x80 != 0 then (r << 1) ^ 0x1D else r << 1
  }

  function ShiftBy(r: bv8, n: nat): bv8
    decreases n
  {
    if n == 0 then r else ShiftBy(Shift(r), n - 1)
  }

  function FeedByte(r: bv8, b: bv8): bv8 { ShiftBy(r ^ b, 8) }

  function Feed(r: bv8, bytes: seq<bv8>): bv8
    decreases |bytes|
  {
    if bytes == [] then r else Feed(FeedByte(r, bytes[0]), bytes[1..])
  }

  /** The bytes the checksum covers: the identifier, high byte first, then seven payload bytes. */
  function Covered(id: bv16, payload: seq<bv8>): (r: seq<bv8>)
    requires |payload| >= 7
    ensures |r| == 9
  {
    [(id >> 8) as bv8, (id & 0xFF) as bv8] + payload[..7]
  }

  function Checksum(id: bv16, payload: seq<bv8>): bv8
    requires |payload| >= 7
  {
    Feed(0xFF, Covered(id, payload)) ^ 0xFF
  }

  method Compute(id: bv16, payload: seq<bv8>) returns (crc: bv8)
    requires |payload| >= 7
    ensures crc == Checksum(id, payload)
  {
    var bytes := Covered(id, payload);
    crc := 0xFF;
    for index := 0 to 9
      invariant Feed(crc, bytes[index..]) == Feed(0xFF, bytes)
    {
      assert bytes[index..][1..] == bytes[index + 1..];
      ghost var before := crc;
      crc := crc ^ bytes[index];
      for bit := 0 to 8
        invariant ShiftBy(crc, 8 - bit) == FeedByte(before, bytes[index])
      {
        crc := if crc & 0x80 != 0 then (crc << 1) ^ 0x1D else crc << 1;
      }
    }
    crc := crc ^ 0xFF;
  }

  // ----- bytes as polynomials -----

  function Mask(i: nat): bv8 {
    if i == 0 then 0x80 else if i == 1 then 0x40 else if i == 2 then 0x20 else if i == 3 then 0x10
    else if i == 4 then 0x08 else if i == 5 then 0x04 else if i == 6 then 0x02 else 0x01
  }

  function Bits(b: bv8): (r: Gf2.Poly)
    ensures |r| == 8 && forall i | 0 <= i < 8 :: r[i] == (b & Mask(i) != 0)
  {
    seq(8, i requires 0 <= i < 8 => b & Mask(i) != 0)
  }

  /** The divisor 0x11D below its leading term. */
  function Divisor(): (g: Gf2.Poly)
    ensures |g| == 8 && g == [false, false, false, true, true, true, false, true]
  {
    Bits(0x1D)
  }

  function AllBits(bytes: seq<bv8>): (r: Gf2.Poly)
    ensures |r| == 8 * |bytes|
    decreases |bytes|
  {
    if bytes == [] then [] else Bits(bytes[0]) + AllBits(bytes[1..])
  }

  lemma MaskXor(a: bv8, b: bv8, i: nat)
    requires i < 8
    ensures ((a ^ b) & Mask(i) != 0) == ((a & Mask(i) != 0) != (b & Mask(i) != 0))
  {
  }

  lemma BitsXor(a: bv8, b: bv8)
    ensures Bits(a ^ b) == Gf2.Xor(Bits(a), Bits(b))
  {
    forall i | 0 <= i < 8 ensures Bits(a ^ b)[i] == (Bits(a)[i] != Bits(b)[i]) { MaskXor(a, b, i); }
  }

  lemma BitsInjective(a: bv8, b: bv8)
    requires Bits(a) == Bits(b)
    ensures a == b
  {
    assert Bits(a)[0] == Bits(b)[0] && Bits(a)[1] == Bits(b)[1] && Bits(a)[2] == Bits(b)[2] && Bits(a)[3] == Bits(b)[3];
    assert Bits(a)[4] == Bits(b)[4] && Bits(a)[5] == Bits(b)[5] && Bits(a)[6] == Bits(b)[6] && Bits(a)[7] == Bits(b)[7];
  }

  lemma MaskLeft(r: bv8, i: nat)
    requires i < 8
    ensures ((r << 1) & Mask(i) != 0) == (i < 7 && r & Mask(i + 1) != 0)
  {
  }

  lemma LeftBits(r: bv8)
    ensures Bits(r << 1) == Bits(r)[1..] + [false]
  {
    forall i | 0 <= i < 8 ensures Bits(r << 1)[i] == (Bits(r)[1..] + [false])[i] { MaskLeft(r, i); }
  }

  lemma ShiftBits(r: bv8)
    ensures Bits(Shift(r)) == Gf2.Shift(Divisor(), Bits(r))
  {
    LeftBits(r);
    BitsXor(r << 1, 0x1D);
  }

  lemma {:induction false} ShiftByBits(r: bv8, n: nat)
    ensures Bits(ShiftBy(r, n)) == Gf2.Feed(Divisor(), Bits(r), Gf2.Zeros(n))
    decreases n
  {
    if n > 0 {
      ShiftBits(r);
      assert Gf2.Zeros(n)[1..] == Gf2.Zeros(n - 1);
      assert Bits(r)[0 := Bits(r)[0] != false] == Bits(r);
      ShiftByBits(Shift(r), n - 1);
    }
  }

  lemma FeedByteBits(r: bv8, b: bv8)
    ensures Bits(FeedByte(r, b)) == Gf2.Feed(Divisor(), Bits(r), Bits(b))
  {
    BitsXor(r, b);
    ShiftByBits(r ^ b, 8);
    Gf2.FeedAtOnce(Divisor(), Bits(r), Bits(b));
    assert Gf2.Pad(Bits(b), 8) == Bits(b);
  }

  lemma {:induction false} FeedIsDivision(r: bv8, bytes: seq<bv8>)
    ensures Bits(Feed(r, bytes)) == Gf2.Feed(Divisor(), Bits(r), AllBits(bytes))
    decreases |bytes|
  {
    if bytes != [] {
      FeedByteBits(r, bytes[0]);
      Gf2.FeedAppend(Divisor(), Bits(r), Bits(bytes[0]), AllBits(bytes[1..]));
      FeedIsDivision(FeedByte(r, bytes[0]), bytes[1..]);
    }
  }

  lemma {:induction false} AllBitsAppend(a: seq<bv8>, b: seq<bv8>)
    ensures AllBits(a + b) == AllBits(a) + AllBits(b)
    decreases |a|
  {
    if a == [] {
      assert a + b == b;
    } else {
      assert (a + b)[1..] == a[1..] + b;
      AllBitsAppend(a[1..], b);
    }
  }

  // ----- the checksum -----

  const ONES: Gf2.Poly := [true, true, true, true, true, true, true, true]

  lemma ComplementBits(b: bv8)
    ensures Bits(b ^ 0xFF) == Gf2.Xor(Bits(b), ONES)
  {
    BitsXor(b, 0xFF);
  }

  /** The checksum as bits: the register started at all ones, complemented. */
  lemma {:induction false} ChecksumBits(bytes: seq<bv8>, crc: bv8)
    ensures crc == Feed(0xFF, bytes) ^ 0xFF <==> Bits(crc) == Gf2.Xor(Gf2.Feed(Divisor(), ONES, AllBits(bytes)), ONES)
  {
    FeedIsDivision(0xFF, bytes);
    AllOnes();
    ComplementOf(Feed(0xFF, bytes), crc);
  }

  lemma ComplementOf(r: bv8, crc: bv8)
    ensures crc == r ^ 0xFF <==> Bits(crc) == Gf2.Xor(Bits(r), ONES)
  {
    ComplementBits(r);
    EqualBits(crc, r ^ 0xFF);
  }

  lemma AllOnes()
    ensures Bits(0xFF) == ONES
  {
    forall i | 0 <= i < 8 ensures Bits(0xFF)[i] == ONES[i] { }
  }

  lemma EqualBits(a: bv8, b: bv8)
    ensures a == b <==> Bits(a) == Bits(b)
  {
    if Bits(a) == Bits(b) { BitsInjective(a, b); }
  }

  /** The checksum, complemented, is the remainder modulo 0x11D of the covered bits shifted up eight
      places with the first eight complemented; no other byte is. */
  lemma ChecksumIsRemainder(id: bv16, payload: seq<bv8>, crc: bv8)
    requires |payload| >= 7
    ensures crc == Checksum(id, payload) <==>
      Gf2.IsRemainder(Divisor(), Gf2.Dividend(Divisor(), ONES, AllBits(Covered(id, payload))), Gf2.Xor(Bits(crc), ONES))
  {
    var bits := AllBits(Covered(id, payload));
    ChecksumBits(Covered(id, payload), crc);
    Gf2.RegisterIsRemainder(Divisor(), ONES, bits, Gf2.Xor(Bits(crc), ONES));
    FlipTwice(Bits(crc), Gf2.Feed(Divisor(), ONES, bits));
  }

  lemma FlipTwice(a: Gf2.Poly, b: Gf2.Poly)
    requires |a| == |b| == 8
    ensures a == Gf2.Xor(b, ONES) <==> Gf2.Xor(a, ONES) == b
  {
    if a == Gf2.Xor(b, ONES) { assert Gf2.Xor(a, ONES) == b; }
    if Gf2.Xor(a, ONES) == b { assert a == Gf2.Xor(b, ONES); }
  }

  // ----- corruption -----

  /** The ten bytes a receiver compares: the covered nine and the received checksum. */
  ghost predicate Codeword(w: seq<bv8>) {
    |w| == 10 && w[9] == Feed(0xFF, w[..9]) ^ 0xFF
  }

  ghost predicate FrameChecks(id: bv16, payload: seq<bv8>) {
    |payload| == 8 && payload[7] == Checksum(id, payload)
  }

  lemma FrameIsCodeword(id: bv16, payload: seq<bv8>)
    requires |payload| == 8
    ensures FrameChecks(id, payload) <==> Codeword(Covered(id, payload) + [payload[7]])
  {
    assert (Covered(id, payload) + [payload[7]])[..9] == Covered(id, payload);
  }

  lemma LastByte(w: seq<bv8>)
    requires |w| == 10
    ensures AllBits(w) == AllBits(w[..9]) + Bits(w[9])
  {
    assert w == w[..9] + [w[9]];
    AllBitsAppend(w[..9], [w[9]]);
    assert [w[9]][1..] == [];
  }

  /** The positions at which two received words differ. */
  ghost function Errors(w: seq<bv8>, x: seq<bv8>): (e: Gf2.Poly)
    requires |w| == |x|
    ensures |e| == 8 * |w|
  {
    Gf2.Xor(AllBits(w), AllBits(x))
  }

  /** Feeding eight bits that equal the register clears it, and nothing else does. */
  lemma ClearedBy(g: Gf2.Poly, p: Gf2.Poly, b: Gf2.Poly)
    requires |g| == |p| == |b| == 8 && g[7]
    ensures Gf2.IsZero(Gf2.Feed(g, p, b)) <==> p == b
  {
    Gf2.FeedAtOnce(g, p, b);
    assert Gf2.Pad(b, 8) == b;
    Gf2.FeedZeros(g, Gf2.Xor(p, b), 8);
    if Gf2.IsZero(Gf2.Xor(p, b)) {
      forall i | 0 <= i < 8 ensures p[i] == b[i] { assert !Gf2.Xor(p, b)[i]; }
    }
  }

  lemma SameOffset(a: Gf2.Poly, b: Gf2.Poly, d: Gf2.Poly)
    requires |a| == |b| == |d| == 8
    ensures b == Gf2.Xor(Gf2.Xor(a, d), ONES) <==> Gf2.Xor(Gf2.Xor(a, ONES), b) == d
  {
    var l, r := Gf2.Xor(Gf2.Xor(a, d), ONES), Gf2.Xor(Gf2.Xor(a, ONES), b);
    forall i | 0 <= i < 8 ensures b[i] == l[i] <==> r[i] == d[i] { }
    if b == l { assert forall i | 0 <= i < 8 :: r[i] == d[i]; }
    if r == d { assert forall i | 0 <= i < 8 :: b[i] == l[i]; }
  }

  /** The register over two words differs by the register over their difference from a clear start. */
  lemma RegisterDiffers(a: Gf2.Poly, b: Gf2.Poly)
    requires |a| == |b|
    ensures Gf2.Feed(Divisor(), ONES, b) == Gf2.Xor(Gf2.Feed(Divisor(), ONES, a), Gf2.Feed(Divisor(), Gf2.Zeros(8), Gf2.Xor(a, b)))
  {
    Gf2.FeedLinear(Divisor(), ONES, Gf2.Zeros(8), a, Gf2.Xor(a, b));
    assert Gf2.Xor(ONES, Gf2.Zeros(8)) == ONES;
    assert Gf2.Xor(a, Gf2.Xor(a, b)) == b;
  }

  lemma CodewordBits(w: seq<bv8>)
    requires |w| == 10
    ensures Codeword(w) <==> Bits(w[9]) == Gf2.Xor(Gf2.Feed(Divisor(), ONES, AllBits(w[..9])), ONES)
  {
    ChecksumBits(w[..9], w[9]);
  }

  lemma UndetectedIffClear(w: seq<bv8>, x: seq<bv8>)
    requires Codeword(w) && |x| == 10
    ensures Codeword(x) <==> Gf2.IsZero(Gf2.Feed(Divisor(), Gf2.Zeros(8), Errors(w, x)))
  {
    CodewordBits(w);
    CodewordBits(x);
    var a, b := AllBits(w[..9]), AllBits(x[..9]);
    RegisterDiffers(a, b);
    var d := Gf2.Feed(Divisor(), Gf2.Zeros(8), Gf2.Xor(a, b));
    SameOffset(Gf2.Feed(Divisor(), ONES, a), Bits(x[9]), d);
    ErrorsRegister(w, x);
  }

  /** A corrupted codeword passes exactly when its errors are a multiple of the polynomial 0x11D. */
  lemma UndetectedIffMultiple(w: seq<bv8>, x: seq<bv8>)
    requires Codeword(w) && |x| == 10
    ensures Codeword(x) <==> Gf2.IsMultiple(Divisor(), Errors(w, x))
  {
    UndetectedIffClear(w, x);
    Gf2.ClearIffMultiple(Divisor(), Errors(w, x));
  }

  lemma ErrorsRegister(w: seq<bv8>, x: seq<bv8>)
    requires |w| == |x| == 10
    ensures Gf2.IsZero(Gf2.Feed(Divisor(), Gf2.Zeros(8), Errors(w, x))) <==>
      Gf2.Feed(Divisor(), Gf2.Zeros(8), Gf2.Xor(AllBits(w[..9]), AllBits(x[..9]))) == Gf2.Xor(Bits(w[9]), Bits(x[9]))
  {
    LastByte(w);
    LastByte(x);
    var e, last := Gf2.Xor(AllBits(w[..9]), AllBits(x[..9])), Gf2.Xor(Bits(w[9]), Bits(x[9]));
    assert Errors(w, x) == e + last;
    Gf2.FeedAppend(Divisor(), Gf2.Zeros(8), e, last);
    ClearedBy(Divisor(), Gf2.Feed(Divisor(), Gf2.Zeros(8), e), last);
  }

  /** Every burst of errors within eight consecutive bits is rejected, wherever it falls. */
  lemma BurstRejected(w: seq<bv8>, x: seq<bv8>, i: nat)
    requires Codeword(w) && |x| == 10 && Gf2.Burst(Errors(w, x), 8, i)
    ensures !Codeword(x)
  {
    UndetectedIffClear(w, x);
    Gf2.BurstDetected(Divisor(), Errors(w, x), i);
  }

  /** So is every single-bit error. */
  lemma SingleBitRejected(w: seq<bv8>, x: seq<bv8>, i: nat)
    requires Codeword(w) && |x| == 10 && i < 80
    requires forall k | 0 <= k < 80 :: Errors(w, x)[k] <==> k == i
    ensures !Codeword(x)
  {
    assert Errors(w, x)[i];
    BurstRejected(w, x, if i <= 72 then i else 72);
  }

  ghost predicate NeverBack(r: bv8, n: nat)
    decreases n
  {
    n == 0 || (Shift(r) != 0x80 && NeverBack(Shift(r), n - 1))
  }

  lemma EightSteps(r: bv8, n: nat) returns (s: bv8)
    requires n >= 8
    ensures s == Shift(Shift(Shift(Shift(Shift(Shift(Shift(Shift(r))))))))
    ensures NeverBack(r, 8) && NeverBack(s, n - 8) ==> NeverBack(r, n)
  {
    var s1 := Shift(r); var s2 := Shift(s1); var s3 := Shift(s2); var s4 := Shift(s3);
    var s5 := Shift(s4); var s6 := Shift(s5); var s7 := Shift(s6); s := Shift(s7);
    if NeverBack(r, 8) && NeverBack(s, n - 8) {
      assert NeverBack(s1, 7) && NeverBack(s2, 6) && NeverBack(s3, 5) && NeverBack(s4, 4);
      assert NeverBack(s5, 3) && NeverBack(s6, 2) && NeverBack(s7, 1);
      assert NeverBack(s7, n - 7) && NeverBack(s6, n - 6) && NeverBack(s5, n - 5) && NeverBack(s4, n - 4);
      assert NeverBack(s3, n - 3) && NeverBack(s2, n - 2) && NeverBack(s1, n - 1);
    }
  }

  /** x is not congruent to 1 under any power up to the length of a codeword. */
  lemma OrbitIsLong()
    ensures NeverBack(0x80, 80)
  {
    var a := EightSteps(0x80, 80);
    var b := EightSteps(a, 72);
    var c := EightSteps(b, 64);
    var d := EightSteps(c, 56);
    var e := EightSteps(d, 48);
    var f := EightSteps(e, 40);
    var g := EightSteps(f, 32);
    var h := EightSteps(g, 24);
    var i := EightSteps(h, 16);
    var j := EightSteps(i, 8);
  }

  lemma {:induction false} NeverBackAt(r: bv8, n: nat, d: nat)
    requires NeverBack(r, n) && 1 <= d <= n
    ensures ShiftBy(r, d) != 0x80
    decreases n
  {
    if d > 1 { NeverBackAt(Shift(r), n - 1, d - 1); } else { assert ShiftBy(r, 1) == ShiftBy(Shift(r), 0); }
  }

  /** Every two-bit error is rejected. */
  lemma TwoBitsRejected(w: seq<bv8>, x: seq<bv8>, i: nat, j: nat)
    requires Codeword(w) && |x| == 10 && i < j < 80
    requires forall k | 0 <= k < 80 :: Errors(w, x)[k] <==> (k == i || k == j)
    ensures !Codeword(x)
  {
    UndetectedIffClear(w, x);
    UnitNotRepeated(j - i);
    Gf2.PairPattern(Errors(w, x), i, j);
    Gf2.PairDetected(Divisor(), i, j - i, 79 - j);
  }

  lemma UnitNotRepeated(d: nat)
    requires 1 <= d <= 80
    ensures Gf2.Feed(Divisor(), Gf2.Unit(8), Gf2.Zeros(d)) != Gf2.Unit(8)
  {
    OrbitIsLong();
    NeverBackAt(0x80, 80, d);
    ShiftByBits(0x80, d);
    assert Bits(0x80) == Gf2.Unit(8);
    EqualBits(ShiftBy(0x80, d), 0x80);
  }

  /** A frame that checks under one identifier fails under any other with the same high byte, as all
      power identifiers have. */
  lemma OtherIdentifierRejected(id: bv16, other: bv16, payload: seq<bv8>)
    requires FrameChecks(id, payload) && id != other && id >> 8 == other >> 8
    ensures !FrameChecks(other, payload)
  {
    var w, x := Covered(id, payload) + [payload[7]], Covered(other, payload) + [payload[7]];
    FrameIsCodeword(id, payload);
    FrameIsCodeword(other, payload);
    SplitIdentifier(id, other);
    assert w == [w[0]] + ([w[1]] + w[2..]) && x == [w[0]] + ([x[1]] + w[2..]);
    SecondByteDiffers(w[0], w[1], x[1], w[2..]);
    BurstRejected(w, x, 8);
  }

  lemma AllBitsHead(a: bv8, rest: seq<bv8>)
    ensures AllBits([a] + rest) == Bits(a) + AllBits(rest)
  {
    assert ([a] + rest)[1..] == rest;
  }

  lemma SecondByteDiffers(a: bv8, b: bv8, c: bv8, rest: seq<bv8>)
    requires b != c && |rest| == 8
    ensures Gf2.Burst(Errors([a] + ([b] + rest), [a] + ([c] + rest)), 8, 8)
  {
    var u, v := AllBits([a] + ([b] + rest)), AllBits([a] + ([c] + rest));
    AllBitsHead(a, [b] + rest);
    AllBitsHead(b, rest);
    AllBitsHead(a, [c] + rest);
    AllBitsHead(c, rest);
    EqualBits(b, c);
    var k :| 0 <= k < 8 && Bits(b)[k] != Bits(c)[k];
    assert u[8 + k] != v[8 + k];
    assert Gf2.Xor(u, v)[8 + k];
  }

  lemma SplitIdentifier(id: bv16, other: bv16)
    requires id != other && id >> 8 == other >> 8
    ensures (id & 0xFF) as bv8 != (other & 0xFF) as bv8
    ensures (id >> 8) as bv8 == (other >> 8) as bv8
  {
  }
}
