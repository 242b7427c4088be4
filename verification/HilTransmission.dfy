/** Sending an image (can_tx_task): START, the sample triplets, and COMMIT only when every one of them was
    accepted, under any pattern of send failures. */
module HilTransmission {
  import opened Bytes
  import Crc32
  import opened HilImage
  import opened HilReassembly

  const CELL_ID: bv16 := 0x210
  const TEMP_ID: bv16 := 0x211
  const CONTROL_ID: bv16 := 0x212

  datatype Item = Item(id: bv16, data: seq<bv8>)

  /** One call of the CAN driver and its answer. */
  datatype Attempt = Attempt(item: Item, ok: bool)

  type Oracle = nat -> bool

  /** The CAN driver: whether the k-th call succeeds is decided elsewhere. */
  class Bus {
    const outcome: Oracle
    var log: seq<Attempt>

    constructor (outcome: Oracle)
      ensures this.outcome == outcome && log == []
    {
      this.outcome := outcome;
      log := [];
    }

    method Send(id: bv16, data: seq<bv8>) returns (ok: bool)
      modifies this
      ensures ok == outcome(|old(log)|) && log == old(log) + [Attempt(Item(id, data), ok)]
    {
      ok := outcome(|log|);
      log := log + [Attempt(Item(id, data), ok)];
    }
  }

  // ----- what is sent -----

  predicate AllOk(outcome: Oracle, k: nat, n: nat) { forall i: nat | k <= i < k + n :: outcome(i) }

  /** Consecutive calls from the k-th on, all made whatever they answer. */
  function Tried(items: seq<Item>, outcome: Oracle, k: nat): (r: seq<Attempt>)
    ensures |r| == |items| && forall i | 0 <= i < |r| :: r[i] == Attempt(items[i], outcome(k + i))
  {
    seq(|items|, i requires 0 <= i < |items| => Attempt(items[i], outcome(k + i)))
  }

  /** The calls made so far and whether the image is still complete. */
  datatype Line = Line(log: seq<Attempt>, ok: bool)

  /** A burst goes out whole if nothing failed before it, and not at all otherwise. */
  function Step(l: Line, burst: seq<Item>, outcome: Oracle): Line {
    if l.ok then Line(l.log + Tried(burst, outcome, |l.log|), AllOk(outcome, |l.log|, |burst|)) else l
  }

  type Bursts = seq<seq<Item>>

  function Go(l: Line, bursts: Bursts, outcome: Oracle): Line
    decreases |bursts|
  {
    if bursts == [] then l else Step(Go(l, bursts[..|bursts| - 1], outcome), bursts[|bursts| - 1], outcome)
  }

  function Items(id: bv16, frames: seq<seq<bv8>>): (r: seq<Item>)
    ensures |r| == |frames| && forall i | 0 <= i < |r| :: r[i] == Item(id, frames[i])
  {
    seq(|frames|, i requires 0 <= i < |frames| => Item(id, frames[i]))
  }

  /** One burst per segment, of the first s segments. */
  function PlaneBursts(p: Plane, id: bv16, counter: bv8, s: nat): (r: Bursts)
    requires p.Valid() && s <= |p.count|
    ensures |r| == s
    decreases s
  {
    if s == 0 then [] else PlaneBursts(p, id, counter, s - 1) + [Items(id, SegmentFrames(p, counter, s - 1))]
  }

  function AllBursts(p: Plane, id: bv16, counter: bv8): Bursts
    requires p.Valid()
  {
    PlaneBursts(p, id, counter, |p.count|)
  }

  function StartItem(i: Image): Item
    requires i.Valid()
  {
    Item(CONTROL_ID, StartData(i))
  }

  function CommitItem(i: Image): Item
    requires i.Valid()
  {
    Item(CONTROL_ID, CommitData(i, Crc32.Checksum(ImageWords(i))))
  }

  /** The line after everything but COMMIT, and after the whole image. */
  function AfterData(l: Line, i: Image, outcome: Oracle): Line
    requires i.Valid()
  {
    Go(Go(Step(l, [StartItem(i)], outcome), AllBursts(i.cells, CELL_ID, i.counter), outcome),
       AllBursts(i.temps, TEMP_ID, i.counter), outcome)
  }

  function AfterImage(l: Line, i: Image, outcome: Oracle): Line
    requires i.Valid()
  {
    Step(AfterData(l, i, outcome), [CommitItem(i)], outcome)
  }

  // ----- sending -----

  /** The log after j of the items were tried, and whether all of them succeeded. */
  ghost predicate Progress(log: seq<Attempt>, start: seq<Attempt>, items: seq<Item>, outcome: Oracle, j: nat, ok: bool) {
    j <= |items| && log == start + Tried(items[..j], outcome, |start|) && ok == AllOk(outcome, |start|, j)
  }

  lemma OneMoreTried(log: seq<Attempt>, start: seq<Attempt>, items: seq<Item>, outcome: Oracle, j: nat, ok: bool)
    requires Progress(log, start, items, outcome, j, ok) && j < |items|
    ensures |log| == |start| + j
    ensures var sent := outcome(|log|);
      Progress(log + [Attempt(items[j], sent)], start, items, outcome, j + 1, ok && sent)
  {
    var k := |start|;
    assert Tried(items[..j + 1], outcome, k) == Tried(items[..j], outcome, k) + [Attempt(items[j], outcome(k + j))];
    if ok && outcome(k + j) {
      forall i: nat | k <= i < k + j + 1 ensures outcome(i) { }
    }
  }

  lemma ProgressIsStep(log: seq<Attempt>, start: seq<Attempt>, items: seq<Item>, outcome: Oracle, ok: bool)
    requires Progress(log, start, items, outcome, |items|, ok)
    ensures Line(log, ok) == Step(Line(start, true), items, outcome)
  {
    assert items[..|items|] == items;
  }

  method SendTriplet(bus: Bus, p: Plane, id: bv16, counter: bv8, s: nat, first: nat, buf: array<bv8>) returns (ok: bool)
    requires p.Valid() && s < |p.count| && first < p.count[s] && buf.Length == 8
    modifies bus, buf
    ensures ok == bus.outcome(|old(bus.log)|)
    ensures bus.log == old(bus.log) + [Attempt(Item(id, SampleData(p, counter, s, first)), ok)]
  {
    PackSamples(p, counter, s, first, buf);
    ok := bus.Send(id, buf[..]);
  }

  /** The inner loop: all triplets of a segment are tried, even after a failure. */
  method SendSegment(bus: Bus, p: Plane, id: bv16, counter: bv8, s: nat, buf: array<bv8>) returns (ok: bool)
    requires p.Valid() && s < |p.count| && buf.Length == 8
    modifies bus, buf
    ensures Line(bus.log, ok) == Step(Line(old(bus.log), true), Items(id, SegmentFrames(p, counter, s)), bus.outcome)
  {
    ghost var items := Items(id, SegmentFrames(p, counter, s));
    ok := true;
    var first := 0;
    ghost var j := 0;
    while first < p.count[s]
      invariant first == STRIDE * j && Progress(bus.log, old(bus.log), items, bus.outcome, j, ok)
      decreases p.count[s] - first
    {
      TripletStart(p.count[s], j);
      OneMoreTried(bus.log, old(bus.log), items, bus.outcome, j, ok);
      var sent := SendTriplet(bus, p, id, counter, s, first, buf);
      if !sent {
        ok := false;
      }
      first, j := first + STRIDE, j + 1;
    }
    TripletStart(p.count[s], j);
    ProgressIsStep(bus.log, old(bus.log), items, bus.outcome, ok);
  }

  lemma GoOneMore(l: Line, bursts: Bursts, last: seq<Item>, outcome: Oracle)
    ensures Go(l, bursts + [last], outcome) == Step(Go(l, bursts, outcome), last, outcome)
  {
    assert (bursts + [last])[..|bursts + [last]| - 1] == bursts;
  }

  /** Nothing more goes out once something failed. */
  lemma {:induction false} GoStopped(l: Line, bursts: Bursts, outcome: Oracle)
    requires !l.ok
    ensures Go(l, bursts, outcome) == l
    decreases |bursts|
  {
    if bursts != [] { GoStopped(l, bursts[..|bursts| - 1], outcome); }
  }

  lemma {:induction false} StaysStopped(l: Line, p: Plane, id: bv16, counter: bv8, s: nat, outcome: Oracle)
    requires p.Valid() && s <= |p.count| && !Go(l, PlaneBursts(p, id, counter, s), outcome).ok
    ensures Go(l, AllBursts(p, id, counter), outcome) == Go(l, PlaneBursts(p, id, counter, s), outcome)
    decreases |p.count| - s
  {
    if s < |p.count| {
      GoOneMore(l, PlaneBursts(p, id, counter, s), Items(id, SegmentFrames(p, counter, s)), outcome);
      StaysStopped(l, p, id, counter, s + 1, outcome);
    }
  }

  /** The outer loop: segment after segment while everything succeeds. */
  method SendPlane(bus: Bus, p: Plane, id: bv16, counter: bv8, buf: array<bv8>, imageOk: bool) returns (ok: bool)
    requires p.Valid() && buf.Length == 8
    modifies bus, buf
    ensures Line(bus.log, ok) == Go(Line(old(bus.log), imageOk), AllBursts(p, id, counter), bus.outcome)
  {
    ghost var l := Line(bus.log, imageOk);
    ok := imageOk;
    var s := 0;
    while ok && s < |p.count|
      invariant s <= |p.count| && Line(bus.log, ok) == Go(l, PlaneBursts(p, id, counter, s), bus.outcome)
      decreases |p.count| - s, ok
    {
      GoOneMore(l, PlaneBursts(p, id, counter, s), Items(id, SegmentFrames(p, counter, s)), bus.outcome);
      ok := SendSegment(bus, p, id, counter, s, buf);
      s := s + 1;
    }
    if !ok { StaysStopped(l, p, id, counter, s, bus.outcome); }
  }

  method SendOne(bus: Bus, id: bv16, data: seq<bv8>) returns (ok: bool)
    modifies bus
    ensures Line(bus.log, ok) == Step(Line(old(bus.log), true), [Item(id, data)], bus.outcome)
  {
    ok := bus.Send(id, data);
    assert AllOk(bus.outcome, |old(bus.log)|, 1) == bus.outcome(|old(bus.log)|);
  }

  /** The whole sequence: START, cells, temperatures, and COMMIT if nothing failed. */
  method Transmit(bus: Bus, i: Image, buf: array<bv8>) returns (imageOk: bool)
    requires i.Valid() && buf.Length == 8
    modifies bus, buf
    ensures Line(bus.log, imageOk) == AfterImage(Line(old(bus.log), true), i, bus.outcome)
  {
    PackStart(i, buf);
    var startData := buf[..];
    var crc := ImageCrc(i);
    PackCommit(i, crc, buf);
    var commitData := buf[..];
    imageOk := SendOne(bus, CONTROL_ID, startData);
    imageOk := SendPlane(bus, i.cells, CELL_ID, i.counter, buf, imageOk);
    imageOk := SendPlane(bus, i.temps, TEMP_ID, i.counter, buf, imageOk);
    if imageOk {
      imageOk := SendOne(bus, CONTROL_ID, commitData);
    }
  }

  // ----- all or nothing -----

  /** n of the items went out after `start`: all of them when nothing failed, and otherwise up to and including a failure. */
  ghost predicate Piece(start: seq<Attempt>, items: seq<Item>, outcome: Oracle, l: Line, n: nat) {
    && n <= |items| && l.log == start + Tried(items[..n], outcome, |start|)
    && l.ok == AllOk(outcome, |start|, |items|)
    && (if l.ok then n == |items| else !AllOk(outcome, |start|, n))
  }

  ghost predicate SomePiece(start: seq<Attempt>, items: seq<Item>, outcome: Oracle, l: Line) {
    exists n: nat :: Piece(start, items, outcome, l, n)
  }

  lemma TriedAppend(a: seq<Item>, b: seq<Item>, outcome: Oracle, k: nat)
    ensures Tried(a + b, outcome, k) == Tried(a, outcome, k) + Tried(b, outcome, k + |a|)
  {
  }

  lemma OkAppend(outcome: Oracle, k: nat, a: nat, b: nat)
    ensures AllOk(outcome, k, a + b) == (AllOk(outcome, k, a) && AllOk(outcome, k + a, b))
  {
    if AllOk(outcome, k, a) && AllOk(outcome, k + a, b) {
      forall i: nat | k <= i < k + (a + b) ensures outcome(i) { }
    }
    if AllOk(outcome, k, a + b) {
      forall i: nat | k <= i < k + a ensures outcome(i) { }
      forall i: nat | k + a <= i < k + a + b ensures outcome(i) { }
    }
  }

  lemma Associate<T>(a: seq<T>, b: seq<T>, c: seq<T>)
    ensures a + b + c == a + (b + c)
  {
  }

  lemma StepGoesOn(start: seq<Attempt>, items: seq<Item>, outcome: Oracle, l: Line, b: seq<Item>, n: nat)
    requires Piece(start, items, outcome, l, n) && l.ok
    ensures SomePiece(start, items + b, outcome, Step(l, b, outcome))
  {
    var k, m, r := |start|, |items| + |b|, Step(l, b, outcome);
    assert items[..n] == items && (items + b)[..m] == items + b;
    TriedAppend(items, b, outcome, k);
    Associate(start, Tried(items, outcome, k), Tried(b, outcome, k + |items|));
    OkAppend(outcome, k, |items|, |b|);
    assert Piece(start, items + b, outcome, r, m);
  }

  lemma StepStays(start: seq<Attempt>, items: seq<Item>, outcome: Oracle, l: Line, b: seq<Item>, n: nat)
    requires Piece(start, items, outcome, l, n) && !l.ok
    ensures SomePiece(start, items + b, outcome, l)
  {
    assert (items + b)[..n] == items[..n];
    OkAppend(outcome, |start|, |items|, |b|);
    assert Piece(start, items + b, outcome, l, n);
  }

  lemma StepKeepsPiece(start: seq<Attempt>, items: seq<Item>, outcome: Oracle, l: Line, b: seq<Item>)
    requires SomePiece(start, items, outcome, l)
    ensures SomePiece(start, items + b, outcome, Step(l, b, outcome))
  {
    var n: nat :| Piece(start, items, outcome, l, n);
    if l.ok { StepGoesOn(start, items, outcome, l, b, n); } else { StepStays(start, items, outcome, l, b, n); }
  }

  lemma {:induction false} PlaneKeepsPiece(start: seq<Attempt>, items: seq<Item>, outcome: Oracle, l: Line,
                                           p: Plane, id: bv16, counter: bv8, s: nat)
    requires p.Valid() && s <= |p.count| && SomePiece(start, items, outcome, l)
    ensures SomePiece(start, items + Items(id, PlaneFrames(p, counter, s)), outcome, Go(l, PlaneBursts(p, id, counter, s), outcome))
    decreases s
  {
    if s == 0 {
      assert items + Items(id, PlaneFrames(p, counter, 0)) == items;
    } else {
      var before, last := Items(id, PlaneFrames(p, counter, s - 1)), Items(id, SegmentFrames(p, counter, s - 1));
      PlaneKeepsPiece(start, items, outcome, l, p, id, counter, s - 1);
      GoOneMore(l, PlaneBursts(p, id, counter, s - 1), last, outcome);
      StepKeepsPiece(start, items + before, outcome, Go(l, PlaneBursts(p, id, counter, s - 1), outcome), last);
      Associate(items, before, last);
      PlaneItems(p, id, counter, s);
    }
  }

  lemma {:induction false} PlaneItems(p: Plane, id: bv16, counter: bv8, s: nat)
    requires p.Valid() && 0 < s <= |p.count|
    ensures Items(id, PlaneFrames(p, counter, s)) == Items(id, PlaneFrames(p, counter, s - 1)) + Items(id, SegmentFrames(p, counter, s - 1))
  {
  }

  /** Everything that must succeed before COMMIT, in order. */
  function DataItems(i: Image): seq<Item>
    requires i.Valid()
  {
    [StartItem(i)] + Items(CELL_ID, PlaneFrames(i.cells, i.counter, |i.cells.count|))
      + Items(TEMP_ID, PlaneFrames(i.temps, i.counter, |i.temps.count|))
  }

  lemma DataIsPiece(start: seq<Attempt>, i: Image, outcome: Oracle)
    requires i.Valid()
    ensures SomePiece(start, DataItems(i), outcome, AfterData(Line(start, true), i, outcome))
  {
    var l := Line(start, true);
    assert Tried([][..0], outcome, |start|) == [];
    assert Piece(start, [], outcome, l, 0);
    StepKeepsPiece(start, [], outcome, l, [StartItem(i)]);
    assert [] + [StartItem(i)] == [StartItem(i)];
    var l1 := Step(l, [StartItem(i)], outcome);
    PlaneKeepsPiece(start, [StartItem(i)], outcome, l1, i.cells, CELL_ID, i.counter, |i.cells.count|);
    var l2 := Go(l1, AllBursts(i.cells, CELL_ID, i.counter), outcome);
    PlaneKeepsPiece(start, [StartItem(i)] + Items(CELL_ID, PlaneFrames(i.cells, i.counter, |i.cells.count|)), outcome, l2,
                    i.temps, TEMP_ID, i.counter, |i.temps.count|);
  }

  predicate IsCommit(item: Item) { item.id == CONTROL_ID && |item.data| == 8 && item.data[1] == COMMIT }

  lemma DataHasNoCommit(i: Image)
    requires i.Valid()
    ensures forall k | 0 <= k < |DataItems(i)| :: !IsCommit(DataItems(i)[k])
  {
  }

  /** COMMIT is among the calls from position k on. */
  ghost predicate CommitTried(log: seq<Attempt>, k: nat) { exists j :: k <= j < |log| && IsCommit(log[j].item) }

  ghost predicate FailedOnce(log: seq<Attempt>, k: nat) { exists j :: k <= j < |log| && !log[j].ok }

  lemma PieceFailed(start: seq<Attempt>, items: seq<Item>, outcome: Oracle, l: Line)
    requires SomePiece(start, items, outcome, l) && !l.ok
    requires forall k | 0 <= k < |items| :: !IsCommit(items[k])
    ensures FailedOnce(l.log, |start|) && !CommitTried(l.log, |start|)
  {
    var n: nat :| Piece(start, items, outcome, l, n);
    var x: nat :| |start| <= x < |start| + n && !outcome(x);
    assert !l.log[x].ok;
    forall j | |start| <= j < |l.log| ensures !IsCommit(l.log[j].item) {
      assert l.log[j] == Attempt(items[j - |start|], outcome(j));
    }
  }

  lemma PieceComplete(start: seq<Attempt>, items: seq<Item>, outcome: Oracle, l: Line, commit: Item)
    requires SomePiece(start, items, outcome, l) && l.ok && IsCommit(commit)
    ensures AllOk(outcome, |start|, |items|)
    ensures var r := Step(l, [commit], outcome); CommitTried(r.log, |start|) && r.log == start + Tried(items + [commit], outcome, |start|)
  {
    var n: nat :| Piece(start, items, outcome, l, n);
    assert items[..n] == items;
    var k := |start|;
    TriedAppend(items, [commit], outcome, k);
    Associate(start, Tried(items, outcome, k), Tried([commit], outcome, k + |items|));
    var r := Step(l, [commit], outcome);
    assert IsCommit(r.log[k + |items|].item);
  }

  /** COMMIT goes out if and only if START and every triplet succeeded; then the calls are exactly all of them in
      order, followed by COMMIT. Otherwise a failed call is on the log. */
  lemma CommitOnlyAfterEverything(start: seq<Attempt>, i: Image, outcome: Oracle)
    requires i.Valid()
    ensures var log, items, k := AfterImage(Line(start, true), i, outcome).log, DataItems(i), |start|;
      && (CommitTried(log, k) <==> AllOk(outcome, k, |items|))
      && (if AllOk(outcome, k, |items|) then log == start + Tried(items + [CommitItem(i)], outcome, k) else FailedOnce(log, k))
  {
    var l, items := AfterData(Line(start, true), i, outcome), DataItems(i);
    DataIsPiece(start, i, outcome);
    DataHasNoCommit(i);
    var n: nat :| Piece(start, items, outcome, l, n);
    if l.ok { PieceComplete(start, items, outcome, l, CommitItem(i)); } else { PieceFailed(start, items, outcome, l); }
  }

  // ----- the data frames are the announced ones -----

  lemma AnnouncedPlane(p: Plane, counter: bv8)
    requires p.Valid()
    ensures FrameByte(FrameCount(p.count)) as nat == |PlaneFrames(p, counter, |p.count|)|
    ensures (|p.values| as bv8) as nat == Sum(p.count) && (|p.count| as bv8) as nat == |p.count|
  {
    AnnouncedIsSent(p, counter, |p.count|);
    assert p.count[..|p.count|] == p.count;
    ByteOf(FrameCount(p.count));
    ByteOf(|p.values|);
    ByteOf(|p.count|);
  }

  /** START announces as many cell and temperature frames, channels and segments as the image has. */
  lemma StartAnnouncesData(i: Image)
    requires i.Valid()
    ensures var n, d := |i.cells.count|, StartData(i);
      && d[3] as nat == n && d[4] as nat == Sum(i.cells.count) && d[5] as nat == Sum(i.temps.count)
      && d[6] as nat == |PlaneFrames(i.cells, i.counter, n)| && d[7] as nat == |PlaneFrames(i.temps, i.counter, n)|
  {
    AnnouncedPlane(i.cells, i.counter);
    AnnouncedPlane(i.temps, i.counter);
  }

  /** The checksum in COMMIT reads back as the checksum of the samples sent. */
  lemma CommitCarriesChecksum(i: Image)
    requires i.Valid()
    ensures ReadU32(CommitItem(i).data[4..]) == Crc32.Checksum(ImageWords(i))
  {
    var crc := Crc32.Checksum(ImageWords(i));
    U32RoundTrip(crc, 0, 0, 0, 0);
    AfterFour(VERSION, COMMIT, i.counter, 0, WriteU32(crc));
  }

  lemma AfterFour(a: bv8, b: bv8, c: bv8, d: bv8, rest: seq<bv8>)
    ensures ([a, b, c, d] + rest)[4..] == rest
  {
  }
}
