/** The plant image and its frames (ams_hil_image_protocol.h and the packing half of main.c): addressing, and the
    payloads of START, sample triplets and COMMIT. */
module HilImage {
  import opened Bytes
  import Crc32

  // ----- bytes -----

  function Join(high: bv8, low: bv8): bv16 { ((high as bv16) << 8) | (low as bv16) }

  lemma JoinSplit(v: bv16)
    ensures Join(Crc32.HighByte(v), Crc32.LowByte(v)) == v
  {
  }

  function PackAddress(segment: bv8, first: bv8): bv8 { (segment << 5) | (first & 0x1F) }

  /** The address byte of a triplet; the source casts both numbers to a byte. */
  function AddressOf(segment: nat, first: nat): bv8
    requires segment < 256 && first < 256
  {
    PackAddress(segment as bv8, first as bv8)
  }

  function AddressSegment(a: bv8): bv8 { (a & 0xE0) >> 5 }

  function AddressIndex(a: bv8): bv8 { a & 0x1F }

  /** Packing loses nothing below eight segments of thirty-two channels, and every byte is some packed address. */
  lemma AddressRoundTrip(segment: bv8, first: bv8, a: bv8)
    ensures segment < 8 && first < 32 ==>
      AddressSegment(PackAddress(segment, first)) == segment && AddressIndex(PackAddress(segment, first)) == first
    ensures PackAddress(AddressSegment(a), AddressIndex(a)) == a
  {
  }

  function WriteU32(v: bv32): (b: seq<bv8>)
    ensures |b| == 4
  {
    [(v >> 24) as bv8, ((v >> 16) & 0xFF) as bv8, ((v >> 8) & 0xFF) as bv8, (v & 0xFF) as bv8]
  }

  function ReadU32(b: seq<bv8>): bv32
    requires |b| == 4
  {
    ((b[0] as bv32) << 24) | ((b[1] as bv32) << 16) | ((b[2] as bv32) << 8) | (b[3] as bv32)
  }

  lemma U32RoundTrip(v: bv32, b0: bv8, b1: bv8, b2: bv8, b3: bv8)
    ensures ReadU32(WriteU32(v)) == v && WriteU32(ReadU32([b0, b1, b2, b3])) == [b0, b1, b2, b3]
  {
  }

  // ----- the image -----

  const STRIDE: nat := 3

  /** The channels of one kind: how many each segment has, where each segment's entries start in the index, and
      the samples, already scaled and saturated to the wire's 16 bits. */
  datatype Plane = Plane(count: seq<nat>, offset: seq<nat>, index: seq<nat>, values: seq<bv16>)
  {
    /** What the generated topology tables satisfy. */
    ghost predicate Valid() {
      && |count| == |offset| <= 8 && Sum(count) == |values| <= 255
      && forall s | 0 <= s < |count| :: count[s] <= 32 && offset[s] + count[s] <= |index|
    }
  }

  datatype Image = Image(counter: bv8, cells: Plane, temps: Plane)
  {
    ghost predicate Valid() { cells.Valid() && temps.Valid() && |cells.count| == |temps.count| }
  }

  function Sum(s: seq<nat>): nat
    decreases |s|
  {
    if s == [] then 0 else Sum(s[..|s| - 1]) + s[|s| - 1]
  }

  /** The sample of a channel, zero when the channel does not exist. */
  function Sample(p: Plane, segment: nat, channel: nat): bv16
    requires p.Valid()
  {
    if segment < |p.count| && channel < p.count[segment] && p.index[p.offset[segment] + channel] < |p.values|
    then p.values[p.index[p.offset[segment] + channel]] else 0
  }

  function Triplets(count: nat): nat { (count + STRIDE - 1) / STRIDE }

  function FrameCount(count: seq<nat>): nat
    decreases |count|
  {
    if count == [] then 0 else FrameCount(count[..|count| - 1]) + Triplets(count[|count| - 1])
  }

  method CountFrames(count: seq<nat>) returns (n: bv8)
    ensures n as nat == if FrameCount(count) <= 255 then FrameCount(count) else 255
  {
    var total := 0;
    for s := 0 to |count|
      invariant total == FrameCount(count[..s])
    {
      assert count[..s + 1][..s] == count[..s];
      total := total + Triplets(count[s]);
    }
    assert count[..|count|] == count;
    if total <= 255 {
      ByteOf(total);
      n := total as bv8;
    } else {
      n := 255;
    }
  }

  // ----- frame payloads -----

  const VERSION: bv8 := 1
  const START: bv8 := 1
  const COMMIT: bv8 := 2

  function FrameByte(n: nat): bv8 { if n <= 255 then n as bv8 else 255 }

  function StartData(i: Image): seq<bv8>
    requires i.Valid()
  {
    [VERSION, START, i.counter, |i.cells.count| as bv8, |i.cells.values| as bv8, |i.temps.values| as bv8,
     FrameByte(FrameCount(i.cells.count)), FrameByte(FrameCount(i.temps.count))]
  }

  function CommitData(i: Image, crc: bv32): seq<bv8> { [VERSION, COMMIT, i.counter, 0] + WriteU32(crc) }

  function WordBytes(v: bv16): seq<bv8> { [Crc32.HighByte(v), Crc32.LowByte(v)] }

  /** n consecutive samples from channel `first` on, high byte first. */
  function SampleBytes(p: Plane, segment: nat, first: nat, n: nat): (d: seq<bv8>)
    requires p.Valid()
    ensures |d| == 2 * n
    decreases n
  {
    if n == 0 then [] else SampleBytes(p, segment, first, n - 1) + WordBytes(Sample(p, segment, first + n - 1))
  }

  function SampleData(p: Plane, counter: bv8, segment: nat, first: nat): (d: seq<bv8>)
    requires p.Valid() && segment < |p.count| && first < p.count[segment]
    ensures |d| == 8
  {
    [counter, AddressOf(segment, first)] + SampleBytes(p, segment, first, STRIDE)
  }

  method PutEight(buf: array<bv8>, a: bv8, b: bv8, c: bv8, d: bv8, e: bv8, f: bv8, g: bv8, h: bv8)
    requires buf.Length == 8
    modifies buf
    ensures buf[..] == [a, b, c, d, e, f, g, h]
  {
    buf[0], buf[1], buf[2], buf[3], buf[4], buf[5], buf[6], buf[7] := a, b, c, d, e, f, g, h;
  }

  method PackStart(i: Image, buf: array<bv8>)
    requires i.Valid() && buf.Length == 8
    modifies buf
    ensures buf[..] == StartData(i)
  {
    var cells := CountFrames(i.cells.count);
    var temps := CountFrames(i.temps.count);
    SameByte(cells, FrameCount(i.cells.count));
    SameByte(temps, FrameCount(i.temps.count));
    PutEight(buf, VERSION, START, i.counter, |i.cells.count| as bv8, |i.cells.values| as bv8, |i.temps.values| as bv8, cells, temps);
  }

  lemma SameByte(b: bv8, n: nat)
    requires b as nat == if n <= 255 then n else 255
    ensures b == FrameByte(n)
  {
  }

  method PackCommit(i: Image, crc: bv32, buf: array<bv8>)
    requires buf.Length == 8
    modifies buf
    ensures buf[..] == CommitData(i, crc)
  {
    var b := WriteU32(crc);
    PutEight(buf, VERSION, COMMIT, i.counter, 0, b[0], b[1], b[2], b[3]);
  }

  method PutWord(buf: array<bv8>, off: nat, v: bv16)
    requires off + 2 <= buf.Length
    modifies buf
    ensures buf[..off + 2] == old(buf[..off]) + WordBytes(v)
  {
    buf[off] := Crc32.HighByte(v);
    buf[off + 1] := Crc32.LowByte(v);
  }

  lemma OneMoreSample(p: Plane, segment: nat, first: nat, n: nat, head: seq<bv8>)
    requires p.Valid()
    ensures head + SampleBytes(p, segment, first, n + 1)
         == head + SampleBytes(p, segment, first, n) + WordBytes(Sample(p, segment, first + n))
  {
  }

  method PackSamples(p: Plane, counter: bv8, segment: nat, first: nat, buf: array<bv8>)
    requires p.Valid() && segment < |p.count| && first < p.count[segment] && buf.Length == 8
    modifies buf
    ensures buf[..] == SampleData(p, counter, segment, first)
  {
    var address := AddressOf(segment, first);
    buf[0], buf[1] := counter, address;
    ghost var head := [counter, address];
    for n := 0 to STRIDE
      invariant buf[..2 + 2 * n] == head + SampleBytes(p, segment, first, n)
    {
      PutWord(buf, 2 + 2 * n, Sample(p, segment, first + n));
      OneMoreSample(p, segment, first, n, head);
    }
    assert buf[..] == buf[..8];
  }
}
