/** The task heartbeat monitor of the AMS (app.c): kicks and updates on a wrapping millisecond tick, as a value and
    as the object with masks that is updated in place. */
module Heartbeat {
  import opened Ticks

  type Marks = set<nat>

  const COUNT: nat := 8
  const GRACE_MS: nat := 3000
  const LOGGER: nat := 4
  const ALL_BITS: bv16 := 0xFF
  const LOGGER_BIT: bv16 := 0x10

  /** Milliseconds a task may stay silent: adbms, current, temp, can, logger, imd, fan, estimator. */
  function Timeout(id: nat): nat
    requires id < COUNT
  {
    [3000, 200, 3000, 2000, 2000, 500, 1000, 500][id]
  }

  // ----- the monitor as a value -----

  datatype Monitor = Monitor(
    boot: U32, last: seq<U32>, gap: seq<U32>, maxGap: seq<U32>, count: seq<U32>,
    seen: Marks, stale: Marks, safetyStale: Marks, loggerStale: Marks)
  {
    predicate Valid() { |last| == |gap| == |maxGap| == |count| == COUNT }
  }

  const ZEROS: seq<U32> := [0, 0, 0, 0, 0, 0, 0, 0]

  function Booted(now: U32): (m: Monitor)
    ensures m.Valid()
  {
    Monitor(now, [now, now, now, now, now, now, now, now], ZEROS, ZEROS, ZEROS, {}, {}, {}, {})
  }

  /** A kick outside the known tasks is ignored. */
  function Kicked(m: Monitor, id: int, now: U32): (r: Monitor)
    requires m.Valid()
    ensures r.Valid()
  {
    if id < 0 || id >= COUNT then m
    else
      var first, gap := m.count[id] == 0, Elapsed(now, m.last[id]);
      m.(gap := if first then m.gap else m.gap[id := gap],
         maxGap := if first then m.maxGap else m.maxGap[id := Max(m.maxGap[id], gap)],
         last := m.last[id := now], count := m.count[id := Saturated(m.count[id])], seen := m.seen + {id})
  }

  predicate IsStale(m: Monitor, id: nat, now: U32)
    requires m.Valid() && id < COUNT
  {
    if id in m.seen then Elapsed(now, m.last[id]) > Timeout(id) else Elapsed(now, m.boot) >= GRACE_MS
  }

  /** The stale tasks among the first n. */
  function StaleUpTo(m: Monitor, now: U32, n: nat): Marks
    requires m.Valid() && n <= COUNT
  {
    set id | 0 <= id < n && IsStale(m, id, now)
  }

  function Updated(m: Monitor, safety: Marks, now: U32): (r: Monitor)
    requires m.Valid()
    ensures r.Valid()
  {
    var stale := StaleUpTo(m, now, COUNT);
    m.(stale := stale, safetyStale := stale * safety, loggerStale := stale * {LOGGER})
  }

  // ----- the masks -----

  function Bit(i: nat): bv16 {
    if i == 0 then 0x01 else if i == 1 then 0x02 else if i == 2 then 0x04 else if i == 3 then 0x08
    else if i == 4 then 0x10 else if i == 5 then 0x20 else if i == 6 then 0x40 else 0x80
  }

  predicate Marked(mask: bv16, i: nat) { mask & Bit(i) != 0 }

  function MarksOf(mask: bv16): (r: Marks)
    ensures forall i: nat | i < COUNT :: i in r <==> Marked(mask, i)
    ensures forall i | i in r :: i < COUNT
  {
    set i | 0 <= i < COUNT && Marked(mask, i)
  }

  lemma MaskBits(a: bv16, b: bv16, i: nat)
    requires i < COUNT
    ensures Marked(a & b, i) == (Marked(a, i) && Marked(b, i))
    ensures Marked(ALL_BITS, i) && Marked(LOGGER_BIT, i) == (i == LOGGER)
  {
  }

  lemma OneBit(i: nat, j: nat)
    requires i < COUNT && j < COUNT
    ensures Marked(Bit(i), j) == (i == j)
  {
  }

  lemma MarksAnd(a: bv16, b: bv16)
    ensures MarksOf(a & b) == MarksOf(a) * MarksOf(b)
  {
    forall i: nat | i < COUNT ensures i in MarksOf(a & b) <==> i in MarksOf(a) * MarksOf(b) { MaskBits(a, b, i); }
  }

  lemma OrAt(a: bv16, b: bv16, j: nat)
    requires j < COUNT
    ensures Marked(a | b, j) <==> Marked(a, j) || Marked(b, j)
  {
    assert (a | b) & Bit(j) == (a & Bit(j)) | (b & Bit(j));
  }

  lemma MarksOr(a: bv16, b: bv16)
    ensures MarksOf(a | b) == MarksOf(a) + MarksOf(b)
  {
    forall j: nat | j < COUNT ensures j in MarksOf(a | b) <==> j in MarksOf(a) + MarksOf(b) { OrAt(a, b, j); }
  }

  lemma MarksAdd(a: bv16, i: nat)
    requires i < COUNT
    ensures MarksOf(a | Bit(i)) == MarksOf(a) + {i}
  {
    var b := Bit(i);
    forall j: nat | j < COUNT ensures j in MarksOf(b) <==> j == i { OneBit(i, j); }
    MarksOr(a, b);
  }

  lemma MarksWithin(a: bv16)
    ensures MarksOf(a & ALL_BITS) == MarksOf(a) && MarksOf(a & LOGGER_BIT) == MarksOf(a) * {LOGGER} && MarksOf(0) == {}
  {
    forall i: nat | i < COUNT
      ensures Marked(a & ALL_BITS, i) == Marked(a, i) && Marked(a & LOGGER_BIT, i) == (Marked(a, i) && i == LOGGER) && !Marked(0, i)
    {
      MaskBits(a, ALL_BITS, i);
      MaskBits(a, LOGGER_BIT, i);
      assert Bit(i) & 0 == 0;
    }
  }

  lemma NoMarksIffZero(a: bv16)
    requires a & 0xFF00 == 0
    ensures a != 0 <==> MarksOf(a) != {}
  {
    if MarksOf(a) == {} {
      assert !Marked(a, 0) && !Marked(a, 1) && !Marked(a, 2) && !Marked(a, 3);
      assert !Marked(a, 4) && !Marked(a, 5) && !Marked(a, 6) && !Marked(a, 7);
    }
    if a == 0 { MarksWithin(0); }
  }

  // ----- the monitor in place -----

  /** The heartbeat part of the application data; the safety mask is a build-time choice of tasks. */
  class HeartbeatMonitor {
    const safetyMask: bv16
    const last: array<U32>
    const gap: array<U32>
    const maxGap: array<U32>
    const count: array<U32>
    var boot: U32
    var seenMask: bv16
    var staleMask: bv16
    var safetyStaleMask: bv16
    var loggerStaleMask: bv16
    var taskFault: bool
    var loggerFault: bool

    ghost predicate Valid()
      reads this
    {
      && last.Length == gap.Length == maxGap.Length == count.Length == COUNT
      && last != gap && last != maxGap && last != count && gap != maxGap && gap != count && maxGap != count
      && safetyMask & 0xFF00 == 0
    }

    ghost function View(): (m: Monitor)
      requires Valid()
      reads this, last, gap, maxGap, count
      ensures m.Valid()
    {
      Monitor(boot, last[..], gap[..], maxGap[..], count[..],
              MarksOf(seenMask), MarksOf(staleMask), MarksOf(safetyStaleMask), MarksOf(loggerStaleMask))
    }

    constructor (now: U32, safetyMask: bv16)
      requires safetyMask & 0xFF00 == 0
      ensures Valid() && fresh(last) && fresh(gap) && fresh(maxGap) && fresh(count)
      ensures this.safetyMask == safetyMask && View() == Booted(now) && !taskFault && !loggerFault
    {
      this.safetyMask := safetyMask;
      boot, seenMask, staleMask, safetyStaleMask, loggerStaleMask := now, 0, 0, 0, 0;
      taskFault, loggerFault := false, false;
      last := new U32[COUNT](i => now);
      gap := new U32[COUNT](i => 0);
      maxGap := new U32[COUNT](i => 0);
      count := new U32[COUNT](i => 0);
      new;
      MarksWithin(0);
      assert last[..] == Booted(now).last && gap[..] == ZEROS && maxGap[..] == ZEROS && count[..] == ZEROS;
    }

    /** One critical section: records the gap, the tick and the seen bit of a task. */
    method Kick(id: int, now: U32)
      requires Valid()
      modifies `seenMask, last, gap, maxGap, count
      ensures Valid() && View() == Kicked(old(View()), id, now)
    {
      if id < 0 || id >= COUNT {
        return;
      }
      RecordGap(id, now);
      RecordTick(id, now);
      MarkSeen(id);
    }

    method RecordTick(id: nat, now: U32)
      requires Valid() && id < COUNT
      modifies last, count
      ensures last[..] == old(last[..])[id := now] && count[..] == old(count[..])[id := Saturated(old(count[id]))]
    {
      last[id] := now;
      if count[id] != 0xFFFF_FFFF {
        count[id] := count[id] + 1;
      }
    }

    method MarkSeen(id: nat)
      requires Valid() && id < COUNT
      modifies `seenMask
      ensures MarksOf(seenMask) == MarksOf(old(seenMask)) + {id}
    {
      MarksAdd(seenMask, id);
      MarksWithin(seenMask | Bit(id));
      seenMask := seenMask | Bit(id);
      seenMask := seenMask & ALL_BITS;
    }

    method RecordGap(id: nat, now: U32)
      requires Valid() && id < COUNT
      modifies gap, maxGap
      ensures var first, g := count[id] == 0, Elapsed(now, last[id]);
        && gap[..] == (if first then old(gap[..]) else old(gap[..])[id := g])
        && maxGap[..] == (if first then old(maxGap[..]) else old(maxGap[..])[id := Max(old(maxGap[id]), g)])
    {
      if count[id] != 0 {
        var g := Elapsed(now, last[id]);
        gap[id] := g;
        if g > maxGap[id] {
          maxGap[id] := g;
        }
      }
    }

    /** One critical section: recomputes the stale masks and the two fault flags. */
    method Update(now: U32) returns (stale: bv16)
      requires Valid()
      modifies `staleMask, `safetyStaleMask, `loggerStaleMask, `taskFault, `loggerFault
      ensures Valid() && View() == Updated(old(View()), MarksOf(safetyMask), now)
      ensures MarksOf(stale) == View().stale
      ensures taskFault == (View().safetyStale != {}) && loggerFault == (View().loggerStale != {})
    {
      stale := FindStale(now);
      MarksWithin(stale);
      MarksAnd(stale, safetyMask);
      staleMask := stale & ALL_BITS;
      safetyStaleMask := stale & safetyMask;
      loggerStaleMask := stale & LOGGER_BIT;
      assert (stale & safetyMask) & 0xFF00 == 0 && (stale & LOGGER_BIT) & 0xFF00 == 0;
      NoMarksIffZero(safetyStaleMask);
      NoMarksIffZero(loggerStaleMask);
      taskFault := safetyStaleMask != 0;
      loggerFault := loggerStaleMask != 0;
      stale := staleMask;
    }

    /** The loop over the tasks. */
    method FindStale(now: U32) returns (stale: bv16)
      requires Valid()
      ensures MarksOf(stale) == StaleUpTo(View(), now, COUNT)
    {
      stale := 0;
      MarksWithin(0);
      var grace := Elapsed(now, boot) < GRACE_MS;
      for i := 0 to COUNT
        invariant MarksOf(stale) == StaleUpTo(View(), now, i)
      {
        var next := stale;
        if seenMask & Bit(i) == 0 {
          if !grace {
            next := stale | Bit(i);
          }
        } else if Elapsed(now, last[i]) > Timeout(i) {
          next := stale | Bit(i);
        }
        StaleOneMore(View(), now, i, stale, next);
        stale := next;
      }
    }
  }

  lemma StaleOneMore(m: Monitor, now: U32, i: nat, stale: bv16, next: bv16)
    requires m.Valid() && i < COUNT && MarksOf(stale) == StaleUpTo(m, now, i)
    requires next == if IsStale(m, i, now) then stale | Bit(i) else stale
    ensures MarksOf(next) == StaleUpTo(m, now, i + 1)
  {
    MarksAdd(stale, i);
    assert StaleUpTo(m, now, i + 1) == StaleUpTo(m, now, i) + (if IsStale(m, i, now) then {i} else {});
  }
}
