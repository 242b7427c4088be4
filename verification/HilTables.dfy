/** The image and its frames said of the topology tables and the bytes on the wire. */
module HilTables {
  import opened Bytes
  import Crc32
  import opened HilImage
  import opened HilReassembly
  import opened HilTransmission

  // ----- samples -----

  /** Channel c of segment s shows this value of the plane: the one that the index names, or zero if it names none. */
  ghost predicate Shows(p: Plane, s: nat, c: nat, v: bv16)
    requires p.Valid() && s < |p.count| && c < p.count[s]
  {
    var group := p.index[p.offset[s] + c];
    v == if group < |p.values| then p.values[group] else 0
  }

  /** What a receiver has staged after all frames of a plane. */
  ghost function Staged(p: Plane, counter: bv8): Staging
    requires p.Valid()
  {
    PlaneBuilds(p, counter, |p.count|);
    StageAll(PlaneFrames(p, counter, |p.count|), p.count)
  }

  /** Staging all frames of a plane gives every channel, and no other, the value that the tables name for it. */
  lemma StagedFromTables(p: Plane, counter: bv8, s: nat, c: nat)
    requires p.Valid()
    ensures var m := Staged(p, counter);
      && ((s, c) in m <==> s < |p.count| && c < p.count[s])
      && ((s, c) in m ==> Shows(p, s, c, m[(s, c)]))
  {
    PlaneBuilds(p, counter, |p.count|);
    assert (s, c) in Staged(p, counter) <==> Done(p, |p.count|, 0, s, c);
  }

  /** The tables place this group at channel c of segment s. */
  predicate Places(p: Plane, s: nat, c: nat, group: nat) {
    && s < |p.count| && s < |p.offset| && c < p.count[s] && p.offset[s] + c < |p.index| && p.index[p.offset[s] + c] == group
  }

  /** The tables place every group somewhere. */
  ghost predicate PlacesAll(p: Plane) {
    forall group: nat | group < |p.values| :: IsPlaced(p, group)
  }

  ghost predicate IsPlaced(p: Plane, group: nat) { exists s: nat, c: nat :: Places(p, s, c, group) }

  lemma PlacedValue(p: Plane, counter: bv8, group: nat, s: nat, c: nat)
    requires p.Valid() && group < |p.values| && Places(p, s, c, group)
    ensures (s, c) in Staged(p, counter) && Staged(p, counter)[(s, c)] == p.values[group]
  {
    StagedFromTables(p, counter, s, c);
  }

  lemma SameGroup(p: Plane, q: Plane, counter: bv8, group: nat)
    requires p.Valid() && q.Valid() && q == p.(values := q.values) && group < |p.values| == |q.values| && IsPlaced(p, group)
    requires Staged(p, counter) == Staged(q, counter)
    ensures p.values[group] == q.values[group]
  {
    var s: nat, c: nat :| Places(p, s, c, group);
    PlacedValue(p, counter, group, s, c);
    PlacedValue(q, counter, group, s, c);
  }

  /** What the frames of a plane stage determines every value that the tables place: no other values stage alike. */
  lemma StagingLosesNothing(p: Plane, q: Plane, counter: bv8)
    requires p.Valid() && q.Valid() && q == p.(values := q.values) && PlacesAll(p)
    requires Staged(p, counter) == Staged(q, counter)
    ensures p == q
  {
    forall group: nat | group < |p.values| ensures p.values[group] == q.values[group] {
      assert IsPlaced(p, group);
      SameGroup(p, q, counter, group);
    }
    assert p.values == q.values;
  }

  // ----- the order of the checksum -----

  lemma {:induction false} SegmentWordAt(p: Plane, s: nat, n: nat, c: nat)
    requires p.Valid() && s < |p.count| && c < n <= p.count[s]
    ensures Shows(p, s, c, SegmentWords(p, s, n)[c])
    decreases n
  {
    if c < n - 1 { SegmentWordAt(p, s, n - 1, c); }
  }

  lemma {:induction false} PlaneLength(p: Plane, s: nat)
    requires p.Valid() && s <= |p.count|
    ensures |PlaneWords(p, s)| == Sum(p.count[..s])
    decreases s
  {
    if s > 0 {
      PlaneLength(p, s - 1);
      assert p.count[..s][..s - 1] == p.count[..s - 1];
    }
  }

  lemma WordOfSegment(p: Plane, before: seq<bv16>, s: nat, c: nat)
    requires p.Valid() && s < |p.count| && c < p.count[s]
    ensures Shows(p, s, c, (before + SegmentWords(p, s, p.count[s]))[|before| + c])
  {
    SegmentWordAt(p, s, p.count[s], c);
  }

  lemma EarlierWord(before: seq<bv16>, more: seq<bv16>, k: nat)
    requires k < |before|
    ensures (before + more)[k] == before[k]
  {
  }

  /** The word of a channel stands after those of all segments before its own. */
  lemma {:induction false} PlaneWordAt(p: Plane, n: nat, s: nat, c: nat, k: nat)
    requires p.Valid() && s < n <= |p.count| && c < p.count[s] && k == Sum(p.count[..s]) + c
    ensures k < |PlaneWords(p, n)| && Shows(p, s, c, PlaneWords(p, n)[k])
    decreases n
  {
    if s < n - 1 {
      PlaneWordAt(p, n - 1, s, c, k);
      EarlierWord(PlaneWords(p, n - 1), SegmentWords(p, n - 1, p.count[n - 1]), k);
    } else {
      PlaneLength(p, s);
      WordOfSegment(p, PlaneWords(p, s), s, c);
    }
  }

  lemma ImageLengths(i: Image)
    requires i.Valid()
    ensures |PlaneWords(i.cells, |i.cells.count|)| == |i.cells.values| && |PlaneWords(i.temps, |i.temps.count|)| == |i.temps.values|
  {
    PlaneLength(i.cells, |i.cells.count|);
    PlaneLength(i.temps, |i.temps.count|);
    assert i.cells.count[..|i.cells.count|] == i.cells.count && i.temps.count[..|i.temps.count|] == i.temps.count;
  }

  /** The checksum takes all cells first, segment after segment and channel after channel. */
  lemma CellWordAt(i: Image, s: nat, c: nat, k: nat)
    requires i.Valid() && s < |i.cells.count| && c < i.cells.count[s] && k == Sum(i.cells.count[..s]) + c
    ensures k < |i.cells.values| <= |ImageWords(i)| && Shows(i.cells, s, c, ImageWords(i)[k])
  {
    ImageLengths(i);
    PlaneWordAt(i.cells, |i.cells.count|, s, c, k);
  }

  /** Then it takes all temperatures, in the same order, and nothing more. */
  lemma TempWordAt(i: Image, s: nat, c: nat, k: nat)
    requires i.Valid() && s < |i.temps.count| && c < i.temps.count[s] && k == Sum(i.temps.count[..s]) + c
    ensures |ImageWords(i)| == |i.cells.values| + |i.temps.values| && k < |i.temps.values|
    ensures Shows(i.temps, s, c, ImageWords(i)[|i.cells.values| + k])
  {
    ImageLengths(i);
    PlaneWordAt(i.temps, |i.temps.count|, s, c, k);
  }

  // ----- bytes -----

  lemma PackedNumber(s: bv8, first: bv8)
    requires s < 8 && first < 32
    ensures PackAddress(s, first) as nat == 32 * (s as nat) + first as nat
  {
  }

  /** The k-th sample of a frame's payload as a number. */
  function Number(d: seq<bv8>, k: nat): nat
    requires |d| == 8 && k < 3
  {
    256 * (d[2 + 2 * k] as nat) + d[3 + 2 * k] as nat
  }

  lemma SampleNumber(p: Plane, counter: bv8, s: nat, first: nat, k: nat)
    requires p.Valid() && s < |p.count| && first < p.count[s] && k < 3
    ensures Number(SampleData(p, counter, s, first), k) == Sample(p, s, first + k) as nat
  {
    var d := SampleData(p, counter, s, first);
    ValueOfWords(p, counter, s, first, k);
    JoinedNumber(d[2 + 2 * k], d[3 + 2 * k]);
  }

  /** A triplet's payload: the generation, the address 32 * segment + channel, and three big-endian samples, zero past the
      last channel. */
  lemma TripletBytes(p: Plane, counter: bv8, s: nat, first: nat, k: nat) returns (v: bv16)
    requires p.Valid() && s < |p.count| && first < p.count[s] && k < 3
    ensures if first + k < p.count[s] then Shows(p, s, first + k, v) else v == 0
    ensures var d := SampleData(p, counter, s, first);
      d[0] == counter && d[1] as nat == 32 * s + first && Number(d, k) == v as nat
  {
    SampleNumber(p, counter, s, first, k);
    ByteOf(s);
    ByteOf(first);
    PackedNumber(s as bv8, first as bv8);
    v := Sample(p, s, first + k);
  }

  /** The addresses as numbers, each greater than those before it. */
  ghost predicate Ascending(frames: seq<seq<bv8>>) {
    AllEight(frames) && forall j, k | 0 <= j < k < |frames| :: frames[j][1] as nat < frames[k][1] as nat
  }

  lemma FrameAddress(p: Plane, counter: bv8, s: nat, j: nat)
    requires p.Valid() && s < |p.count| && j < |SegmentFrames(p, counter, s)|
    ensures var d := SegmentFrames(p, counter, s)[j]; |d| == 8 && d[1] as nat == 32 * s + 3 * j < 32 * (s + 1)
  {
    TripletStart(p.count[s], j);
    var v := TripletBytes(p, counter, s, 3 * j, 0);
  }

  ghost predicate Between(frames: seq<seq<bv8>>, low: nat, high: nat) {
    AllEight(frames) && forall k | 0 <= k < |frames| :: low <= frames[k][1] as nat < high
  }

  lemma AscendOn(f: seq<seq<bv8>>, g: seq<seq<bv8>>, low: nat, high: nat, r: seq<seq<bv8>>)
    requires Ascending(f) && Between(f, 0, low) && Ascending(g) && Between(g, low, high) && low <= high && r == f + g
    ensures Ascending(r) && Between(r, 0, high)
  {
    forall j, k | 0 <= j < k < |r| ensures |r[j]| == |r[k]| == 8 && r[j][1] as nat < r[k][1] as nat {
      if j < |f| <= k { assert f[j][1] as nat < low <= g[k - |f|][1] as nat; }
    }
  }

  lemma SegmentAscends(p: Plane, counter: bv8, s: nat)
    requires p.Valid() && s < |p.count|
    ensures Ascending(SegmentFrames(p, counter, s)) && Between(SegmentFrames(p, counter, s), 32 * s, 32 * s + 32)
  {
    var g := SegmentFrames(p, counter, s);
    forall j | 0 <= j < |g| ensures |g[j]| == 8 && g[j][1] as nat == 32 * s + 3 * j < 32 * s + 32 { FrameAddress(p, counter, s, j); }
  }

  /** In ascending order, and of the segments before s. */
  ghost predicate InOrder(frames: seq<seq<bv8>>, s: nat) { Ascending(frames) && Between(frames, 0, 32 * s) }

  lemma SegmentInOrder(p: Plane, counter: bv8, s: nat, f: seq<seq<bv8>>, r: seq<seq<bv8>>)
    requires p.Valid() && s < |p.count| && InOrder(f, s) && r == f + SegmentFrames(p, counter, s)
    ensures InOrder(r, s + 1)
  {
    SegmentAscends(p, counter, s);
    AscendOn(f, SegmentFrames(p, counter, s), 32 * s, 32 * s + 32, r);
  }

  /** The triplets of a plane go out segment after segment, and within a segment channel after channel. */
  lemma {:induction false} TripletsAscend(p: Plane, counter: bv8, s: nat, f: seq<seq<bv8>>)
    requires p.Valid() && s <= |p.count| && f == PlaneFrames(p, counter, s)
    ensures InOrder(f, s)
    decreases s
  {
    if s > 0 {
      TripletsAscend(p, counter, s - 1, PlaneFrames(p, counter, s - 1));
      SegmentInOrder(p, counter, s - 1, PlaneFrames(p, counter, s - 1), f);
    }
  }

  /** START: identifier 0x212, version 1, opcode 1, the generation, and how many segments, cells and temperatures follow. */
  lemma StartBytes(i: Image)
    requires i.Valid()
    ensures StartItem(i).id == 0x212
    ensures var d := StartItem(i).data;
      && |d| == 8 && d[0] == 1 && d[1] == 1 && d[2] == i.counter
      && d[3] as nat == |i.cells.count| && d[4] as nat == |i.cells.values| && d[5] as nat == |i.temps.values|
  {
    ByteOf(|i.cells.count|);
    ByteOf(|i.cells.values|);
    ByteOf(|i.temps.values|);
  }

  lemma CommitOf(i: Image, crc: bv32)
    ensures var d := CommitData(i, crc);
      && |d| == 8 && d[0] == 1 && d[1] == 2 && d[2] == i.counter && d[3] == 0
      && ((d[4] as bv32) << 24) | ((d[5] as bv32) << 16) | ((d[6] as bv32) << 8) | (d[7] as bv32) == crc
  {
    U32RoundTrip(crc, 0, 0, 0, 0);
  }

  /** COMMIT: identifier 0x212, version 1, opcode 2, the generation, a zero, and the checksum, high byte first. */
  lemma CommitBytes(i: Image)
    requires i.Valid()
    ensures CommitItem(i).id == 0x212
    ensures var d := CommitItem(i).data;
      && |d| == 8 && d[0] == 1 && d[1] == 2 && d[2] == i.counter && d[3] == 0
      && ((d[4] as bv32) << 24) | ((d[5] as bv32) << 16) | ((d[6] as bv32) << 8) | (d[7] as bv32) == Crc32.Checksum(ImageWords(i))
  {
    CommitOf(i, Crc32.Checksum(ImageWords(i)));
  }

  /** Cell triplets go out as 0x210 and temperature triplets as 0x211. */
  lemma DataIdentifiers(i: Image, k: nat)
    requires i.Valid() && 0 < k < |DataItems(i)|
    ensures DataItems(i)[k].id
         == if k <= |PlaneFrames(i.cells, i.counter, |i.cells.count|)| then 0x210 else 0x211
  {
  }
}
