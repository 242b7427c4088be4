/** What the frame layout lets a receiver rebuild: every channel is carried once, staging by address gives
    back the samples, and their checksum is the announced one. */
module HilReassembly {
  import opened Bytes
  import Crc32
  import opened HilImage

  // ----- the checksum of an image -----

  /** The first n samples of a segment. */
  function SegmentWords(p: Plane, s: nat, n: nat): (w: seq<bv16>)
    requires p.Valid()
    ensures |w| == n
    decreases n
  {
    if n == 0 then [] else SegmentWords(p, s, n - 1) + [Sample(p, s, n - 1)]
  }

  /** The samples of the first s segments, in order. */
  function PlaneWords(p: Plane, s: nat): seq<bv16>
    requires p.Valid() && s <= |p.count|
    decreases s
  {
    if s == 0 then [] else PlaneWords(p, s - 1) + SegmentWords(p, s - 1, p.count[s - 1])
  }

  function ImageWords(i: Image): seq<bv16>
    requires i.Valid()
  {
    PlaneWords(i.cells, |i.cells.count|) + PlaneWords(i.temps, |i.temps.count|)
  }

  method PlaneCrc(p: Plane, start: bv32) returns (crc: bv32)
    requires p.Valid()
    ensures crc == Crc32.Feed(start, PlaneWords(p, |p.count|))
  {
    crc := start;
    for s := 0 to |p.count|
      invariant crc == Crc32.Feed(start, PlaneWords(p, s))
    {
      ghost var before := crc;
      for c := 0 to p.count[s]
        invariant crc == Crc32.Feed(before, SegmentWords(p, s, c))
      {
        Crc32.FeedAppend(before, SegmentWords(p, s, c), [Sample(p, s, c)]);
        Crc32.FeedOne(crc, Sample(p, s, c));
        crc := Crc32.UpdateWord(crc, Sample(p, s, c));
      }
      Crc32.FeedAppend(start, PlaneWords(p, s), SegmentWords(p, s, p.count[s]));
    }
  }

  method ImageCrc(i: Image) returns (crc: bv32)
    requires i.Valid()
    ensures crc == Crc32.Checksum(ImageWords(i))
  {
    crc := PlaneCrc(i.cells, Crc32.ALL);
    crc := PlaneCrc(i.temps, crc);
    Crc32.FeedAppend(Crc32.ALL, PlaneWords(i.cells, |i.cells.count|), PlaneWords(i.temps, |i.temps.count|));
    crc := Crc32.Complement(crc);
  }

  // ----- frames of a plane -----

  lemma TripletStart(count: nat, j: nat)
    ensures j < Triplets(count) <==> STRIDE * j < count
  {
  }

  function SegmentFrames(p: Plane, counter: bv8, s: nat): (f: seq<seq<bv8>>)
    requires p.Valid() && s < |p.count|
    ensures |f| == Triplets(p.count[s])
    ensures forall j | 0 <= j < |f| :: STRIDE * j < p.count[s] && f[j] == SampleData(p, counter, s, STRIDE * j)
  {
    seq(Triplets(p.count[s]), j requires 0 <= j < Triplets(p.count[s]) =>
      TripletStart(p.count[s], j);
      SampleData(p, counter, s, STRIDE * j))
  }

  function PlaneFrames(p: Plane, counter: bv8, s: nat): seq<seq<bv8>>
    requires p.Valid() && s <= |p.count|
    decreases s
  {
    if s == 0 then [] else PlaneFrames(p, counter, s - 1) + SegmentFrames(p, counter, s - 1)
  }

  /** The announced number of frames is the number there are, and it fits its byte. */
  lemma {:induction false} AnnouncedIsSent(p: Plane, counter: bv8, s: nat)
    requires p.Valid() && s <= |p.count|
    ensures |PlaneFrames(p, counter, s)| == FrameCount(p.count[..s]) <= 11 * s
    decreases s
  {
    if s > 0 {
      AnnouncedIsSent(p, counter, s - 1);
      assert p.count[..s][..s - 1] == p.count[..s - 1];
    }
  }

  // ----- which channels a frame carries -----

  /** The frame addresses this channel, which exists. */
  predicate Carries(d: seq<bv8>, count: seq<nat>, s: nat, c: nat) {
    && |d| == 8 && AddressSegment(d[1]) as nat == s && s < |count| && c < count[s]
    && AddressIndex(d[1]) as nat <= c < AddressIndex(d[1]) as nat + STRIDE
  }

  lemma AddressOfData(p: Plane, counter: bv8, s: nat, first: nat)
    requires p.Valid() && s < |p.count| && first < p.count[s]
    ensures var d := SampleData(p, counter, s, first);
      AddressSegment(d[1]) as nat == s && AddressIndex(d[1]) as nat == first
  {
    ByteOf(s);
    ByteOf(first);
    AddressRoundTrip(s as bv8, first as bv8, 0);
  }

  /** Every channel is carried by exactly one frame of the plane: the triplet of its own segment that its
      position falls into. */
  lemma CarriedOnce(p: Plane, counter: bv8, t: nat, j: nat, s: nat, c: nat)
    requires p.Valid() && t < |p.count| && j < Triplets(p.count[t]) && s < |p.count| && c < p.count[s]
    ensures Carries(SegmentFrames(p, counter, t)[j], p.count, s, c) <==> t == s && j == c / STRIDE
  {
    TripletStart(p.count[t], j);
    AddressOfData(p, counter, t, STRIDE * j);
  }

  // ----- staging by address -----

  type Staging = map<(nat, nat), bv16>

  function Value(d: seq<bv8>, k: nat): bv16
    requires |d| == 8 && k < STRIDE
  {
    Join(d[2 + 2 * k], d[3 + 2 * k])
  }

  /** Stages the first n samples of a frame, dropping positions that are no channel. */
  function Put(m: Staging, d: seq<bv8>, s: nat, first: nat, count: seq<nat>, n: nat): Staging
    requires |d| == 8 && n <= STRIDE
    decreases n
  {
    if n == 0 then m
    else
      var r := Put(m, d, s, first, count, n - 1);
      if s < |count| && first + n - 1 < count[s] then r[(s, first + n - 1) := Value(d, n - 1)] else r
  }

  function Stage(m: Staging, d: seq<bv8>, count: seq<nat>): Staging
    requires |d| == 8
  {
    Put(m, d, AddressSegment(d[1]) as nat, AddressIndex(d[1]) as nat, count, STRIDE)
  }

  predicate AllEight(frames: seq<seq<bv8>>) { forall k | 0 <= k < |frames| :: |frames[k]| == 8 }

  function StageAll(frames: seq<seq<bv8>>, count: seq<nat>): Staging
    requires AllEight(frames)
    decreases |frames|
  {
    if frames == [] then map[] else Stage(StageAll(frames[..|frames| - 1], count), frames[|frames| - 1], count)
  }

  /** The channels of the segments before s and the first n of segment s. */
  predicate Done(p: Plane, s: nat, n: nat, t: nat, c: nat) {
    t < |p.count| && c < p.count[t] && (t < s || (t == s && c < n))
  }

  /** m holds the samples of exactly those channels. */
  ghost predicate Built(m: Staging, p: Plane, s: nat, n: nat)
    requires p.Valid()
  {
    forall t: nat, c: nat :: ((t, c) in m <==> Done(p, s, n, t, c)) && ((t, c) in m ==> m[(t, c)] == Sample(p, t, c))
  }

  lemma BuiltOneMore(m: Staging, p: Plane, s: nat, n: nat, v: bv16)
    requires p.Valid() && s < |p.count| && Built(m, p, s, n) && v == Sample(p, s, n)
    ensures Built(if n < p.count[s] then m[(s, n) := v] else m, p, s, n + 1)
  {
    var r := if n < p.count[s] then m[(s, n) := v] else m;
    forall t: nat, c: nat
      ensures ((t, c) in r <==> Done(p, s, n + 1, t, c)) && ((t, c) in r ==> r[(t, c)] == Sample(p, t, c))
    {
      assert (t, c) in m <==> Done(p, s, n, t, c);
    }
  }

  lemma DataIs(p: Plane, counter: bv8, s: nat, first: nat, a: bv16, b: bv16, c: bv16)
    requires p.Valid() && s < |p.count| && first < p.count[s]
    requires a == Sample(p, s, first) && b == Sample(p, s, first + 1) && c == Sample(p, s, first + 2)
    ensures SampleData(p, counter, s, first) == [counter, AddressOf(s, first)] + ([] + WordBytes(a) + WordBytes(b) + WordBytes(c))
  {
    ThreeWords(p, s, first);
  }

  lemma OneOfThree(p: Plane, s: nat, first: nat, k: nat)
    requires p.Valid() && k < STRIDE
    ensures [Sample(p, s, first), Sample(p, s, first + 1), Sample(p, s, first + 2)][k] == Sample(p, s, first + k)
  {
  }

  lemma ValueOfWords(p: Plane, counter: bv8, s: nat, first: nat, k: nat)
    requires p.Valid() && s < |p.count| && first < p.count[s] && k < STRIDE
    ensures Value(SampleData(p, counter, s, first), k) == Sample(p, s, first + k)
  {
    var a, b, c := Sample(p, s, first), Sample(p, s, first + 1), Sample(p, s, first + 2);
    DataIs(p, counter, s, first, a, b, c);
    ValueOf([counter, AddressOf(s, first)], a, b, c, SampleData(p, counter, s, first), k);
    OneOfThree(p, s, first, k);
  }

  lemma ValueOf(head: seq<bv8>, a: bv16, b: bv16, c: bv16, d: seq<bv8>, k: nat)
    requires |head| == 2 && k < STRIDE && |d| == 8 && d == head + ([] + WordBytes(a) + WordBytes(b) + WordBytes(c))
    ensures Value(d, k) == [a, b, c][k]
  {
    var v := [a, b, c][k];
    assert d[2 + 2 * k] == WordBytes(v)[0] && d[3 + 2 * k] == WordBytes(v)[1];
    JoinSplit(v);
  }

  lemma ThreeWords(p: Plane, s: nat, first: nat)
    requires p.Valid()
    ensures SampleBytes(p, s, first, STRIDE)
         == [] + WordBytes(Sample(p, s, first)) + WordBytes(Sample(p, s, first + 1)) + WordBytes(Sample(p, s, first + 2))
  {
    assert SampleBytes(p, s, first, 1) == [] + WordBytes(Sample(p, s, first));
    assert SampleBytes(p, s, first, 2) == SampleBytes(p, s, first, 1) + WordBytes(Sample(p, s, first + 1));
  }

  lemma {:induction false} PutBuilds(m: Staging, p: Plane, d: seq<bv8>, s: nat, first: nat, n: nat)
    requires p.Valid() && s < |p.count| && |d| == 8 && n <= STRIDE && Built(m, p, s, first)
    requires forall k | 0 <= k < STRIDE :: Value(d, k) == Sample(p, s, first + k)
    ensures Built(Put(m, d, s, first, p.count, n), p, s, first + n)
    decreases n
  {
    if n > 0 {
      PutBuilds(m, p, d, s, first, n - 1);
      BuiltOneMore(Put(m, d, s, first, p.count, n - 1), p, s, first + n - 1, Value(d, n - 1));
    }
  }

  lemma StageBuilds(m: Staging, p: Plane, counter: bv8, s: nat, first: nat)
    requires p.Valid() && s < |p.count| && first < p.count[s] && Built(m, p, s, first)
    ensures Built(Stage(m, SampleData(p, counter, s, first), p.count), p, s, first + STRIDE)
  {
    var d := SampleData(p, counter, s, first);
    AddressOfData(p, counter, s, first);
    forall k | 0 <= k < STRIDE ensures Value(d, k) == Sample(p, s, first + k) { ValueOfWords(p, counter, s, first, k); }
    PutBuilds(m, p, d, s, first, STRIDE);
  }

  lemma StageOneMore(frames: seq<seq<bv8>>, d: seq<bv8>, count: seq<nat>)
    requires AllEight(frames) && |d| == 8
    ensures AllEight(frames + [d]) && StageAll(frames + [d], count) == Stage(StageAll(frames, count), d, count)
  {
    assert (frames + [d])[..|frames + [d]| - 1] == frames;
  }

  lemma OneMoreFrame<T>(before: seq<T>, f: seq<T>, j: nat)
    requires 0 < j <= |f|
    ensures before + f[..j] == before + f[..j - 1] + [f[j - 1]]
  {
  }

  lemma {:induction false} SegmentBuilds(p: Plane, before: seq<seq<bv8>>, f: seq<seq<bv8>>, counter: bv8, s: nat, j: nat)
    requires p.Valid() && s < |p.count| && AllEight(before) && Built(StageAll(before, p.count), p, s, 0)
    requires f == SegmentFrames(p, counter, s) && j <= |f|
    ensures AllEight(before + f[..j]) && Built(StageAll(before + f[..j], p.count), p, s, STRIDE * j)
    decreases j
  {
    if j == 0 {
      assert before + f[..0] == before;
    } else {
      SegmentBuilds(p, before, f, counter, s, j - 1);
      OneMoreFrame(before, f, j);
      StageOneMore(before + f[..j - 1], f[j - 1], p.count);
      StageBuilds(StageAll(before + f[..j - 1], p.count), p, counter, s, STRIDE * (j - 1));
    }
  }

  lemma SegmentDone(m: Staging, p: Plane, s: nat, n: nat)
    requires p.Valid() && s < |p.count| && n >= p.count[s] && Built(m, p, s, n)
    ensures Built(m, p, s + 1, 0)
  {
    forall t: nat, c: nat ensures Done(p, s, n, t, c) <==> Done(p, s + 1, 0, t, c) { }
  }

  lemma {:induction false} SegmentCompletes(p: Plane, before: seq<seq<bv8>>, counter: bv8, s: nat)
    requires p.Valid() && s < |p.count| && AllEight(before) && Built(StageAll(before, p.count), p, s, 0)
    ensures AllEight(before + SegmentFrames(p, counter, s))
    ensures Built(StageAll(before + SegmentFrames(p, counter, s), p.count), p, s + 1, 0)
  {
    var f, n := SegmentFrames(p, counter, s), Triplets(p.count[s]);
    SegmentBuilds(p, before, f, counter, s, n);
    assert f[..n] == f;
    SegmentDone(StageAll(before + f, p.count), p, s, STRIDE * n);
  }

  lemma {:induction false} PlaneBuilds(p: Plane, counter: bv8, s: nat)
    requires p.Valid() && s <= |p.count|
    ensures AllEight(PlaneFrames(p, counter, s)) && Built(StageAll(PlaneFrames(p, counter, s), p.count), p, s, 0)
    decreases s
  {
    if s > 0 {
      PlaneBuilds(p, counter, s - 1);
      SegmentCompletes(p, PlaneFrames(p, counter, s - 1), counter, s - 1);
    }
  }

  // ----- the rebuilt image -----

  /** The staged samples read back in canonical order; a channel never staged reads as zero. */
  function ReadSegment(m: Staging, s: nat, n: nat): seq<bv16>
    decreases n
  {
    if n == 0 then [] else ReadSegment(m, s, n - 1) + [if (s, n - 1) in m then m[(s, n - 1)] else 0]
  }

  function ReadPlane(m: Staging, count: seq<nat>, s: nat): seq<bv16>
    requires s <= |count|
    decreases s
  {
    if s == 0 then [] else ReadPlane(m, count, s - 1) + ReadSegment(m, s - 1, count[s - 1])
  }

  lemma {:induction false} SegmentReadsBack(m: Staging, p: Plane, s: nat, n: nat)
    requires p.Valid() && s < |p.count| && n <= p.count[s] && Built(m, p, |p.count|, 0)
    ensures ReadSegment(m, s, n) == SegmentWords(p, s, n)
    decreases n
  {
    if n > 0 { SegmentReadsBack(m, p, s, n - 1); }
  }

  lemma {:induction false} PlaneReadsBack(m: Staging, p: Plane, s: nat)
    requires p.Valid() && s <= |p.count| && Built(m, p, |p.count|, 0)
    ensures ReadPlane(m, p.count, s) == PlaneWords(p, s)
    decreases s
  {
    if s > 0 {
      PlaneReadsBack(m, p, s - 1);
      SegmentReadsBack(m, p, s - 1, p.count[s - 1]);
    }
  }

  /** Staging every cell and temperature frame by address gives back each sample, and the checksum of what was
      rebuilt is the checksum of the image. */
  lemma ReassemblyIsExact(i: Image)
    requires i.Valid()
    ensures var n := |i.cells.count|;
      var cells, temps := PlaneFrames(i.cells, i.counter, n), PlaneFrames(i.temps, i.counter, n);
      && AllEight(cells) && AllEight(temps)
      && (var c, t := StageAll(cells, i.cells.count), StageAll(temps, i.temps.count);
          && Built(c, i.cells, n, 0) && Built(t, i.temps, n, 0)
          && Crc32.Checksum(ReadPlane(c, i.cells.count, n) + ReadPlane(t, i.temps.count, n)) == Crc32.Checksum(ImageWords(i)))
  {
    var n := |i.cells.count|;
    PlaneBuilds(i.cells, i.counter, n);
    PlaneBuilds(i.temps, i.counter, n);
    PlaneReadsBack(StageAll(PlaneFrames(i.cells, i.counter, n), i.cells.count), i.cells, n);
    PlaneReadsBack(StageAll(PlaneFrames(i.temps, i.counter, n), i.temps.count), i.temps, n);
  }
}
