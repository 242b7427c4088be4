/** The consumer's eleven diagnostic counters: what each counts over whole histories, and that no refused frame goes uncounted. */
module PowerCounters {
  import opened Ticks
  import opened PowerFrames
  import opened PowerConsumer
  import opened PowerRuns
  import opened PowerRules

  // ----- what happens to one frame -----

  predicate IsCoreId(f: Frame) { f.id == 0x684 || f.id == 0x685 || f.id == 0x686 || f.id == 0x687 }

  predicate IsAdvisoryId(f: Frame) { f.id == 0x689 || f.id == 0x68A }

  predicate Passes(f: Frame) { FrameVerdict(f) == Good }

  function CounterOf(f: Frame): nat { f.payload[0] as nat % 16 }

  function Place(f: Frame): nat { if f.id == 0x684 then 0 else if f.id == 0x685 then 1 else if f.id == 0x686 then 2 else 3 }

  /** The frame carries the counter of the open stage. */
  predicate Joins(c: Core, f: Frame) { c.stageActive && CounterOf(f) == c.stageCounter }

  predicate Late(c: Core, f: Frame) { Joins(c, f) && Elapsed(f.now, c.stageStarted) > 50 }

  predicate Repeats(c: Core, f: Frame) { Joins(c, f) && !Late(c, f) && Place(f) in c.slots }

  /** It is the last of its four. */
  predicate Completes(c: Core, f: Frame) {
    Joins(c, f) && !Late(c, f) && Place(f) !in c.slots && c.slots + {Place(f)} == {0, 1, 2, 3}
  }

  /** Another counter than that of an unfinished stage. */
  predicate Deserts(c: Core, f: Frame) { c.stageActive && !Joins(c, f) && c.slots != {0, 1, 2, 3} }

  /** Not the counter after that of the last bundle. */
  predicate Skips(c: Core, f: Frame) { c.completeSeen && CounterOf(f) != (c.lastCounter + 1) % 16 }

  function Staging(c: Core, f: Frame): seq<Payload>
    requires |c.payload| == 4
  {
    c.payload[Place(f) := f.payload]
  }

  /** The limits and the envelope of the four fit each other to within half an ampere, in tenths of an ampere. */
  predicate Fitting(b: seq<Payload>)
    requires |b| == 4
  {
    && Word(b[0][2], b[0][3]) <= 10 * (b[3][1] as nat) + 5 && 10 * (b[3][2] as nat) <= Word(b[0][2], b[0][3]) + 5
    && Word(b[1][2], b[1][3]) <= 10 * (b[3][4] as nat) + 5 && 10 * (b[3][5] as nat) <= Word(b[1][2], b[1][3]) + 5
  }

  predicate Accepts(c: Core, f: Frame)
    requires |c.payload| == 4
  {
    IsCoreId(f) && Passes(f) && Completes(c, f) && Fitting(Staging(c, f))
  }

  lemma KindsAre(f: Frame)
    ensures IsCoreId(f) <==> IsCore(f)
    ensures IsCoreId(f) ==> SlotOf(f) == Place(f) < 4
    ensures IsAdvisoryId(f) <==> IsAdvisory(f)
    ensures CounterOf(f) == Counter(f.payload)
  {
    Identifiers(f.id);
  }

  lemma FittingIs(b: seq<Payload>)
    requires |b| == 4
    ensures Fitting(b) <==> BundleValid(b)
  {
  }

  lemma StagedIs(c: Core, f: Frame, s: Core)
    requires WellFormed(c) && IsCoreId(f) && s == Staged(c, Counter(f.payload), f.now)
    ensures Joins(c, f) ==> s == c
    ensures !Joins(c, f) ==> s.stageStarted == f.now && s.slots == {} && s.payload == c.payload
  {
    KindsAre(f);
  }

  lemma OneIsNotFour(slot: nat)
    ensures {} + {slot} != FULL
  {
    assert {} + {slot} == {slot};
    assert |{slot}| == 1 && |FULL| == 4;
  }

  lemma OutcomeIs(c: Core, f: Frame)
    requires WellFormed(c) && IsCoreId(f) && Passes(f) && IsCore(f) && SlotOf(f) == Place(f)
    ensures var o := PlaceOutcome(c, Place(f), f.payload, f.now);
      && (o.Skewed? <==> Late(c, f)) && (o.Duplicate? <==> Repeats(c, f))
      && (o.Accepted? <==> Accepts(c, f)) && (o.Mismatched? <==> Completes(c, f) && !Fitting(Staging(c, f)))
  {
    KindsAre(f);
    FittingIs(Staging(c, f));
    StagedIs(c, f, Staged(c, Counter(f.payload), f.now));
    OneIsNotFour(Place(f));
    if !Joins(c, f) { assert PlaceOutcome(c, Place(f), f.payload, f.now).Stored?; }
  }

  /** One outcome of a core frame as the facts that the counters look at. */
  lemma CoreOutcomeIs(c: Core, f: Frame)
    requires WellFormed(c) && IsCoreId(f)
    ensures IsCore(f) && SlotOf(f) == Place(f)
    ensures var o := CoreOutcome(c, Place(f), f);
      && (o.Rejected? <==> !Passes(f)) && (o.Rejected? ==> o.reason == FrameVerdict(f))
      && (o.Skewed? <==> Passes(f) && Late(c, f)) && (o.Duplicate? <==> Passes(f) && Repeats(c, f))
      && (o.Accepted? <==> Accepts(c, f)) && (o.Mismatched? <==> Passes(f) && Completes(c, f) && !Fitting(Staging(c, f)))
  {
    KindsAre(f);
    if Passes(f) { OutcomeIs(c, f); }
  }

  // ----- the counters -----

  datatype Cause = AcceptedBundle | CrcError | VersionError | CounterError | MalformedFrame | DuplicateFrame | SemanticError
                 | AdvisoryCrc | AdvisoryVersion | AdvisoryMalformed | AdvisorySemantic

  function Read(n: Counts, a: Cause): U32 {
    match a
    case AcceptedBundle => n.accepted
    case CrcError => n.crc
    case VersionError => n.version
    case CounterError => n.counter
    case MalformedFrame => n.malformed
    case DuplicateFrame => n.duplicate
    case SemanticError => n.semantic
    case AdvisoryCrc => n.advisoryCrc
    case AdvisoryVersion => n.advisoryVersion
    case AdvisoryMalformed => n.advisoryMalformed
    case AdvisorySemantic => n.advisorySemantic
  }

  /** A 32-bit counter after adding x. */
  function Plus(n: U32, x: nat): U32 { (n + x) % 4294967296 }

  function One(b: bool): nat { if b then 1 else 0 }

  /** How much a frame adds to a counter: a counter error is an abandoned stage, a late frame, or a bundle out of sequence; a
      semantic error is a frame that breaks its own rules, or the last of four that do not fit. */
  function Adds(a: Cause, c: Core, f: Frame): nat
    requires WellFormed(c)
  {
    if IsCoreId(f) then CoreAdds(a, CoreOutcome(c, Place(f), f), Deserts(c, f), Skips(c, f))
    else if IsAdvisoryId(f) then AdvisoryAdds(a, FrameVerdict(f))
    else 0
  }

  function CoreAdds(a: Cause, o: Outcome, deserts: bool, skips: bool): nat {
    match a
    case AcceptedBundle => One(o.Accepted?)
    case CrcError => One(o == PowerConsumer.Rejected(BadCrc))
    case VersionError => One(o == PowerConsumer.Rejected(BadVersion))
    case CounterError => One(!o.Rejected? && deserts) + One(o.Skewed?) + One(o.Accepted? && skips)
    case MalformedFrame => One(o == PowerConsumer.Rejected(Malformed))
    case DuplicateFrame => One(o.Duplicate?)
    case SemanticError => One(o == PowerConsumer.Rejected(BadFrame)) + One(o.Mismatched?)
    case _ => 0
  }

  function AdvisoryAdds(a: Cause, v: Verdict): nat {
    match a
    case AdvisoryCrc => One(v == BadCrc)
    case AdvisoryVersion => One(v == BadVersion)
    case AdvisoryMalformed => One(v == Malformed)
    case AdvisorySemantic => One(v == BadFrame)
    case _ => 0
  }

  lemma SkipsIs(c: Core, f: Frame)
    requires WellFormed(c) && IsCoreId(f) && CoreOutcome(c, Place(f), f).Accepted?
    ensures OutOfSequence(Staged(c, Counter(f.payload), f.now)) <==> Skips(c, f)
  {
    CoreOutcomeIs(c, f);
    KindsAre(f);
  }

  lemma DesertsIs(c: Core, f: Frame)
    requires WellFormed(c) && IsCoreId(f)
    ensures Abandons(c, Counter(f.payload)) <==> Deserts(c, f)
  {
    KindsAre(f);
  }

  /** The counters after a core frame with this outcome. */
  lemma CoreAddsUp(n: Counts, o: Outcome, deserts: bool, skips: bool, r: Counts, a: Cause)
    requires r == n.(
      accepted := AddIf(n.accepted, o.Accepted?), crc := AddIf(n.crc, o == PowerConsumer.Rejected(BadCrc)),
      version := AddIf(n.version, o == PowerConsumer.Rejected(BadVersion)),
      malformed := AddIf(n.malformed, o == PowerConsumer.Rejected(Malformed)),
      semantic := AddIf(n.semantic, o == PowerConsumer.Rejected(BadFrame) || o.Mismatched?), duplicate := AddIf(n.duplicate, o.Duplicate?),
      counter := AddIf(AddIf(n.counter, !o.Rejected? && deserts), o.Skewed? || (o.Accepted? && skips)))
    ensures Read(r, a) == Plus(Read(n, a), CoreAdds(a, o, deserts, skips))
  {
    match a
    case AcceptedBundle => Added(n.accepted, o.Accepted?);
    case CrcError => Added(n.crc, o == PowerConsumer.Rejected(BadCrc));
    case VersionError => Added(n.version, o == PowerConsumer.Rejected(BadVersion));
    case CounterError => AddedTwice(n.counter, !o.Rejected? && deserts, o.Skewed?, o.Accepted? && skips);
    case MalformedFrame => Added(n.malformed, o == PowerConsumer.Rejected(Malformed));
    case DuplicateFrame => Added(n.duplicate, o.Duplicate?);
    case SemanticError => AddedEither(n.semantic, o == PowerConsumer.Rejected(BadFrame), o.Mismatched?);
    case _ => Unchanged(Read(n, a));
  }

  lemma Added(n: U32, b: bool)
    ensures AddIf(n, b) == Plus(n, One(b))
  {
  }

  lemma AddedEither(n: U32, b: bool, d: bool)
    requires !(b && d)
    ensures AddIf(n, b || d) == Plus(n, One(b) + One(d))
  {
  }

  lemma AddedTwice(n: U32, a: bool, b: bool, d: bool)
    requires !(b && d)
    ensures AddIf(AddIf(n, a), b || d) == Plus(n, One(a) + One(b) + One(d))
  {
  }

  lemma Unchanged(n: U32)
    ensures n == Plus(n, 0)
  {
  }

  lemma AdvisoryAddsUp(n: Counts, v: Verdict, a: Cause)
    ensures Read(CountAdvisory(n, v), a) == Plus(Read(n, a), AdvisoryAdds(a, v))
  {
  }

  lemma CoreCounts(n: Counts, c: Core, f: Frame, a: Cause, o: Outcome, r: Counts)
    requires WellFormed(c) && IsCoreId(f) && o == CoreOutcome(c, Place(f), f) && r == CountCore(n, c, Place(f), f)
    ensures Read(r, a) == Plus(Read(n, a), CoreAdds(a, o, Deserts(c, f), Skips(c, f)))
  {
    DesertsIs(c, f);
    if o.Accepted? { SkipsIs(c, f); }
    CoreAddsUp(n, o, Deserts(c, f), Skips(c, f), r, a);
  }

  lemma NextIs(s: State, f: Frame, r: Counts)
    requires WellFormed(s.core) && r == Next(s, f).counts
    ensures IsCoreId(f) ==> r == CountCore(s.counts, s.core, Place(f), f)
    ensures IsAdvisoryId(f) ==> r == CountAdvisory(s.counts, FrameVerdict(f))
    ensures !IsCoreId(f) && !IsAdvisoryId(f) ==> r == s.counts
  {
    KindsAre(f);
  }

  /** One frame adds to every counter what the table says, modulo 2^32. */
  lemma FrameCounts(s: State, f: Frame, a: Cause, r: Counts)
    requires WellFormed(s.core) && r == Next(s, f).counts
    ensures Read(r, a) == Plus(Read(s.counts, a), Adds(a, s.core, f))
  {
    NextIs(s, f, r);
    if IsCoreId(f) {
      CoreCounts(s.counts, s.core, f, a, CoreOutcome(s.core, Place(f), f), r);
    } else if IsAdvisoryId(f) {
      AdvisoryAddsUp(s.counts, FrameVerdict(f), a);
    } else {
      Unchanged(Read(s.counts, a));
    }
  }

  /** The sum, modulo 2^32, of what the frames of a history add. */
  function Total(a: Cause, frames: seq<Frame>): U32
    decreases |frames|
  {
    if frames == [] then 0
    else
      var n := |frames| - 1;
      Plus(Total(a, frames[..n]), Adds(a, Run(INITIAL, frames[..n]).core, frames[n]))
  }

  lemma StartsAtZero(a: Cause)
    ensures Read(INITIAL.counts, a) == 0
  {
  }

  lemma LastFrameCounts(frames: seq<Frame>, n: nat, a: Cause) returns (x: nat)
    requires |frames| == n + 1
    ensures Total(a, frames) == Plus(Total(a, frames[..n]), x)
    ensures Read(Run(INITIAL, frames).counts, a) == Plus(Read(Run(INITIAL, frames[..n]).counts, a), x)
  {
    x := Adds(a, Run(INITIAL, frames[..n]).core, frames[n]);
    FrameCounts(Run(INITIAL, frames[..n]), frames[n], a, Run(INITIAL, frames).counts);
  }

  /** After any history every counter holds the sum of what its frames added, modulo 2^32. */
  lemma {:induction false} CountersTell(frames: seq<Frame>, a: Cause)
    ensures Read(Run(INITIAL, frames).counts, a) == Total(a, frames)
    decreases |frames|
  {
    if frames == [] {
      StartsAtZero(a);
    } else {
      var n := |frames| - 1;
      CountersTell(frames[..n], a);
      var x := LastFrameCounts(frames, n, a);
    }
  }

  /** Every refused core frame adds to exactly one counter for its refusal, and every refused advisory frame to exactly one of the
      advisory ones; a frame that is taken adds to none of them. */
  lemma NoRefusalGoesUncounted(s: State, f: Frame)
    requires WellFormed(s.core)
    ensures IsCoreId(f) ==>
      One(!Taken(s, f)) == Adds(CrcError, s.core, f) + Adds(VersionError, s.core, f) + Adds(MalformedFrame, s.core, f)
        + Adds(DuplicateFrame, s.core, f) + Adds(SemanticError, s.core, f) + One(Passes(f) && Late(s.core, f))
    ensures IsAdvisoryId(f) ==>
      One(!Taken(s, f)) == Adds(AdvisoryCrc, s.core, f) + Adds(AdvisoryVersion, s.core, f) + Adds(AdvisoryMalformed, s.core, f)
        + Adds(AdvisorySemantic, s.core, f)
  {
    KindsAre(f);
    if IsCoreId(f) { CoreOutcomeIs(s.core, f); }
  }
}
