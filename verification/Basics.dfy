/** Optional values, as the lookups of several models return them. */
module Options {
  datatype Option<+T> = None | Some(value: T)
}

/** The 32-bit millisecond clocks of the firmware: counters that saturate, and differences that wrap. */
module Ticks {

  const WRAP: nat := 0x1_0000_0000

  type U32 = x: int | 0 <= x < 0x1_0000_0000

  /** The wrapped difference of two clock values. */
  function Elapsed(later: U32, earlier: U32): U32 { (later - earlier) % WRAP }

  /** The clock value at a true time. */
  function Clock(t: nat): U32 { t % WRAP }

  function Saturated(n: U32): U32 { if n != 0xFFFF_FFFF then n + 1 else n }

  function Max(a: U32, b: U32): U32 { if b > a then b else a }

  /** Wrapped differences are true differences while the gap is below one wrap. */
  lemma ElapsedIsTrue(later: nat, earlier: nat)
    requires earlier <= later < earlier + WRAP
    ensures Elapsed(Clock(later), Clock(earlier)) == later - earlier
  {
  }

  /** The wrapped difference is that of unsigned 32-bit subtraction. */
  lemma ElapsedIsUnsigned(later: U32, earlier: U32)
    ensures Elapsed(later, earlier) == if later >= earlier then later - earlier else later - earlier + 4294967296
  {
  }

  /** The reverse difference of two times less than a wrap apart. */
  lemma ElapsedBackwards(later: nat, earlier: nat)
    requires earlier < later < earlier + WRAP
    ensures Elapsed(Clock(earlier), Clock(later)) == WRAP - (later - earlier)
  {
  }

  /** The clock cannot tell a time from one wrap later. */
  lemma ClockRepeats(t: nat)
    ensures Clock(t + WRAP) == Clock(t)
  {
  }
}

/** Small numbers as bytes. */
module Bytes {

  lemma SameNumber(n: int)
    requires 0 <= n < 256
    ensures (n as bv8) as int == n
  {
    assert n % 256 == n;
  }

  lemma ByteBelow(b: bv8)
    ensures (b as nat < 8 ==> b < 8) && (b as nat < 32 ==> b < 32)
  {
  }

  lemma ByteOf(n: nat)
    requires n < 256
    ensures (n as bv8) as nat == n
    ensures n < 8 ==> (n as bv8) < 8
    ensures n < 32 ==> (n as bv8) < 32
  {
    SameNumber(n);
    ByteBelow(n as bv8);
  }

  // ----- bits as numbers -----

  /** Two to the power n, for n below eight. */
  function Weight(n: nat): (w: nat)
    ensures w > 0
  {
    if n == 0 then 1 else if n == 1 then 2 else if n == 2 then 4 else if n == 3 then 8
    else if n == 4 then 16 else if n == 5 then 32 else if n == 6 then 64 else 128
  }

  /** Bit n of a number, counted from the lowest. */
  predicate BitOf(v: nat, n: nat)
    decreases n
  {
    if n < 8 then v % 256 / Weight(n) % 2 == 1 else BitOf(v / 256, n - 8)
  }

  lemma ByteBitOf(v: nat, n: nat)
    requires v < 256 && n < 8
    ensures BitOf(v, n) <==> v / Weight(n) % 2 == 1
  {
    assert v % 256 == v;
  }

  /** Masking a byte with a power of two asks for that digit of its number. */
  lemma Number128(b: bv8)
    ensures b & 0x80 != 0 <==> b as nat / 128 % 2 == 1
  {
  }

  lemma Number64(b: bv8)
    ensures b & 0x40 != 0 <==> b as nat / 64 % 2 == 1
  {
  }

  lemma Number32(b: bv8)
    ensures b & 0x20 != 0 <==> b as nat / 32 % 2 == 1
  {
  }

  lemma Number16(b: bv8)
    ensures b & 0x10 != 0 <==> b as nat / 16 % 2 == 1
  {
  }

  lemma Number8(b: bv8)
    ensures b & 0x08 != 0 <==> b as nat / 8 % 2 == 1
  {
  }

  lemma Number4(b: bv8)
    ensures b & 0x04 != 0 <==> b as nat / 4 % 2 == 1
  {
  }

  lemma Number2(b: bv8)
    ensures b & 0x02 != 0 <==> b as nat / 2 % 2 == 1
  {
  }

  lemma Number1(b: bv8)
    ensures b & 0x01 != 0 <==> b as nat % 2 == 1
  {
  }

  lemma JoinedNumber(h: bv8, l: bv8)
    ensures (((h as bv16) << 8) | (l as bv16)) as nat == 256 * (h as nat) + l as nat
  {
  }

  /** A 16-bit word is its high byte times 256 plus its low byte. */
  lemma WordNumber(w: bv16)
    ensures w as nat == 256 * (((w >> 8) as bv8) as nat) + ((w & 0xFF) as bv8) as nat
  {
    var h, l := (w >> 8) as bv8, (w & 0xFF) as bv8;
    assert w == ((h as bv16) << 8) | (l as bv16);
    JoinedNumber(h, l);
  }

  /** The bits of a word are those of its high byte above those of its low byte. */
  lemma WordBits(h: nat, l: nat, n: nat)
    requires l < 256 && n < 8
    ensures BitOf(256 * h + l, n + 8) == BitOf(h, n) && BitOf(256 * h + l, n) == BitOf(l, n)
  {
    assert (256 * h + l) / 256 == h && (256 * h + l) % 256 == l;
  }
}
