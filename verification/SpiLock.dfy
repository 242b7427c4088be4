/** The recursive SPI lock of the AMS (app.c): owner and depth bookkeeping in critical sections around an
    RTOS mutex, and what it keeps in every interleaving of tasks. */
module SpiLock {
  import opened Options
  import opened Ticks

  type Task = nat

  const DEPTH_MAX: nat := 65535

  /** Who the bookkeeping says holds the bus, and how often. */
  datatype Ownership = Ownership(owner: Option<Task>, depth: nat)

  const FREE: Ownership := Ownership(None, 0)

  predicate MayTake(o: Ownership, t: Task) { o.depth == 0 || o.owner == Some(t) }

  /** The depth is a 16-bit counter that stops at its maximum. */
  function Taken(o: Ownership, t: Task): Ownership {
    if o.depth == 0 then Ownership(Some(t), 1) else o.(depth := if o.depth != DEPTH_MAX then o.depth + 1 else o.depth)
  }

  predicate MayDrop(o: Ownership, t: Task) { o.depth != 0 && o.owner == Some(t) }

  function Dropped(o: Ownership): Ownership
    requires o.depth != 0
  {
    if o.depth == 1 then FREE else o.(depth := o.depth - 1)
  }

  /** The statics that the two critical sections update, and the lock statistics. */
  class Book {
    var owner: Option<Task>
    var depth: nat
    var acquiredTick: U32
    var acquires: U32
    var contentions: U32
    var maxWait: U32
    var maxHold: U32
    var violations: U32

    constructor ()
      ensures Held() == FREE && violations == 0
    {
      owner, depth, acquiredTick, acquires, contentions, maxWait, maxHold, violations := None, 0, 0, 0, 0, 0, 0, 0;
    }

    function Held(): Ownership
      reads this
    {
      Ownership(owner, depth)
    }

    /** The critical section of adbms_spi_lock, entered with the mutex acquired; true means panic. */
    method Enter(t: Task, waitStart: U32, acquired: U32) returns (panicked: bool)
      modifies this
      ensures panicked == !MayTake(old(Held()), t)
      ensures Held() == if panicked then old(Held()) else Taken(old(Held()), t)
      ensures violations == if panicked then Saturated(old(violations)) else old(violations)
      ensures acquires == Saturated(old(acquires)) && maxWait == Max(old(maxWait), Elapsed(acquired, waitStart))
      ensures contentions == if acquired != waitStart then Saturated(old(contentions)) else old(contentions)
      ensures acquiredTick == (if old(depth) == 0 then acquired else old(acquiredTick)) && maxHold == old(maxHold)
    {
      if acquires != 0xFFFF_FFFF {
        acquires := acquires + 1;
      }
      var wait := Elapsed(acquired, waitStart);
      if wait != 0 {
        if contentions != 0xFFFF_FFFF {
          contentions := contentions + 1;
        }
        if wait > maxWait {
          maxWait := wait;
        }
      }
      if depth == 0 {
        owner, depth, acquiredTick := Some(t), 1, acquired;
      } else if owner == Some(t) {
        if depth != DEPTH_MAX {
          depth := depth + 1;
        }
      } else {
        if violations != 0xFFFF_FFFF {
          violations := violations + 1;
        }
        return true;
      }
      panicked := false;
    }

    /** The critical section of adbms_spi_unlock, which comes before the mutex is released; true means panic. */
    method Leave(t: Task, now: U32) returns (panicked: bool)
      modifies this
      ensures panicked == !MayDrop(old(Held()), t)
      ensures Held() == if panicked then old(Held()) else Dropped(old(Held()))
      ensures violations == if panicked then Saturated(old(violations)) else old(violations)
      ensures maxHold == if !panicked && old(depth) == 1 then Max(old(maxHold), Elapsed(now, old(acquiredTick))) else old(maxHold)
      ensures acquiredTick == (if !panicked && old(depth) == 1 then 0 else old(acquiredTick))
      ensures acquires == old(acquires) && contentions == old(contentions) && maxWait == old(maxWait)
    {
      if depth == 0 || owner != Some(t) {
        if violations != 0xFFFF_FFFF {
          violations := violations + 1;
        }
        return true;
      }
      depth := depth - 1;
      if depth == 0 {
        var hold := Elapsed(now, acquiredTick);
        if hold > maxHold {
          maxHold := hold;
        }
        owner, acquiredTick := None, 0;
      }
      panicked := false;
    }
  }

  // ----- interleaved steps -----

  /** The RTOS mutex: its holder and how often the holder has acquired it. */
  datatype Mutex = Mutex(holder: Option<Task>, count: nat)

  datatype Reason = AcquireFailed | ForeignOwner | NotOwner | ReleaseFailed

  /** Where a task is: outside the two functions, between mutex and critical section, or halted. */
  datatype Place = Outside | Acquired | Releasing | Panicked(reason: Reason)

  datatype System = System(held: Ownership, mutex: Mutex, places: seq<Place>)

  /** Acquire and Release are the mutex calls, TimeOut a failed acquisition, Enter and Leave the critical sections. */
  datatype Action = Acquire(t: Task) | TimeOut(t: Task) | Enter(t: Task) | Leave(t: Task) | Release(t: Task)

  predicate Enabled(s: System, a: Action) {
    && a.t < |s.places|
    && match a
       case Acquire(t) => s.places[t].Outside? && (s.mutex.count == 0 || s.mutex.holder == Some(t))
       case TimeOut(t) => s.places[t].Outside?
       case Enter(t) => s.places[t].Acquired?
       case Leave(t) => s.places[t].Outside?
       case Release(t) => s.places[t].Releasing?
  }

  function At(s: System, t: Task, p: Place): System
    requires t < |s.places|
  {
    s.(places := s.places[t := p])
  }

  function Do(s: System, a: Action): System
    requires Enabled(s, a)
  {
    match a
    case Acquire(t) => At(s.(mutex := Mutex(Some(t), s.mutex.count + 1)), t, Acquired)
    case TimeOut(t) => At(s, t, Panicked(AcquireFailed))
    case Enter(t) =>
      if MayTake(s.held, t) then At(s.(held := Taken(s.held, t)), t, Outside) else At(s, t, Panicked(ForeignOwner))
    case Leave(t) =>
      if MayDrop(s.held, t) then At(s.(held := Dropped(s.held)), t, Releasing) else At(s, t, Panicked(NotOwner))
    case Release(t) =>
      if s.mutex.count == 0 || s.mutex.holder != Some(t) then At(s, t, Panicked(ReleaseFailed))
      else At(s.(mutex := if s.mutex.count == 1 then Mutex(None, 0) else Mutex(Some(t), s.mutex.count - 1)), t, Outside)
  }

  function Initial(tasks: nat): System {
    System(FREE, Mutex(None, 0), seq(tasks, t => Outside))
  }

  /** The states of an interleaving, each action enabled where it happens. */
  predicate IsRun(states: seq<System>, actions: seq<Action>) {
    && |states| == |actions| + 1
    && forall k | 0 <= k < |actions| :: Enabled(states[k], actions[k]) && states[k + 1] == Do(states[k], actions[k])
  }

  // ----- the bookkeeping tracks the mutex -----

  /** t holds the mutex but is not counted in the depth. */
  predicate Between(p: Place) { p.Acquired? || p.Releasing? }

  /** The holder is the owner, the depth is the mutex's count less the holder's step in progress, only the holder
      is in progress, and no task ever met a foreign owner or failed to release. */
  ghost predicate Tracks(s: System) {
    && (s.mutex.count == 0 <==> s.mutex.holder == None) && (s.held.depth == 0 <==> s.held.owner == None)
    && (s.held.depth > 0 ==> s.held.owner == s.mutex.holder)
    && (forall t | 0 <= t < |s.places| :: Between(s.places[t]) ==> s.mutex.holder == Some(t))
    && (forall t | 0 <= t < |s.places| :: s.mutex.holder == Some(t) ==>
          s.mutex.count == s.held.depth + (if Between(s.places[t]) then 1 else 0))
    && (s.mutex.holder.Some? ==> s.mutex.holder.value < |s.places|)
    && (forall t | 0 <= t < |s.places| :: s.places[t] != Panicked(ForeignOwner) && s.places[t] != Panicked(ReleaseFailed))
  }

  lemma StartsTracked(tasks: nat)
    ensures Tracks(Initial(tasks))
  {
  }

  /** Every step keeps the tracking, but for entering at the greatest depth, which loses it. */
  lemma StepTracksIff(s: System, a: Action)
    requires Tracks(s) && Enabled(s, a) && s.held.depth <= DEPTH_MAX
    ensures Tracks(Do(s, a)) <==> !(a.Enter? && s.held.depth == 65535)
  {
  }

  /** The depth is about to stop counting. */
  predicate Saturates(s: System, a: Action) { a.Enter? && s.held.depth == 65535 }

  lemma {:induction false} DepthIsBounded(states: seq<System>, actions: seq<Action>, tasks: nat, k: nat)
    requires IsRun(states, actions) && states[0] == Initial(tasks) && k < |states|
    ensures states[k].held.depth <= DEPTH_MAX && |states[k].places| == tasks
    decreases k
  {
    if k > 0 {
      DepthIsBounded(states, actions, tasks, k - 1);
      assert states[k - 1 + 1] == Do(states[k - 1], actions[k - 1]);
    }
  }

  /** Along every interleaving of any number of tasks, the bookkeeping tracks the mutex up to step k exactly when
      no task entered at the greatest depth before it. */
  lemma {:induction false} RunTracksIff(states: seq<System>, actions: seq<Action>, tasks: nat, k: nat)
    requires IsRun(states, actions) && states[0] == Initial(tasks) && k < |states|
    ensures (forall j | 0 <= j <= k :: Tracks(states[j])) <==> (forall j | 0 <= j < k :: !Saturates(states[j], actions[j]))
    decreases k
  {
    if k == 0 {
      StartsTracked(tasks);
    } else {
      RunTracksIff(states, actions, tasks, k - 1);
      DepthIsBounded(states, actions, tasks, k - 1);
      assert states[k - 1 + 1] == Do(states[k - 1], actions[k - 1]);
      if Tracks(states[k - 1]) { StepTracksIff(states[k - 1], actions[k - 1]); }
    }
  }

  /** What survives even where the depth stops counting: the owner is the holder, who has acquired the mutex at least
      as often as the depth says. */
  ghost predicate Guarded(s: System) {
    && (s.mutex.count == 0 <==> s.mutex.holder == None) && (s.held.depth == 0 <==> s.held.owner == None)
    && (s.held.depth > 0 ==> s.held.owner == s.mutex.holder)
    && (forall t | 0 <= t < |s.places| :: Between(s.places[t]) ==> s.mutex.holder == Some(t))
    && (forall t | 0 <= t < |s.places| :: s.mutex.holder == Some(t) ==>
          s.mutex.count >= s.held.depth + (if Between(s.places[t]) then 1 else 0))
    && (s.mutex.holder.Some? ==> s.mutex.holder.value < |s.places|)
    && (forall t | 0 <= t < |s.places| :: s.places[t] != Panicked(ForeignOwner) && s.places[t] != Panicked(ReleaseFailed))
  }

  lemma StepStaysGuarded(s: System, a: Action)
    requires Guarded(s) && Enabled(s, a)
    ensures Guarded(Do(s, a))
  {
  }

  /** In every interleaving, however deep it nests, no task finds a foreign owner after acquiring the mutex, and no
      release is refused. */
  lemma {:induction false} ForeignOwnerUnreachable(states: seq<System>, actions: seq<Action>, tasks: nat, k: nat)
    requires IsRun(states, actions) && states[0] == Initial(tasks) && k < |states|
    ensures Guarded(states[k]) && |states[k].places| == tasks
    ensures forall t | 0 <= t < tasks ::
      states[k].places[t] != Panicked(ForeignOwner) && states[k].places[t] != Panicked(ReleaseFailed)
    decreases k
  {
    if k > 0 {
      ForeignOwnerUnreachable(states, actions, tasks, k - 1);
      assert states[k - 1 + 1] == Do(states[k - 1], actions[k - 1]);
      StepStaysGuarded(states[k - 1], actions[k - 1]);
    }
  }

  /** In every interleaving, however deep it nests, an unlock by a task that does not hold the mutex is stopped before
      the mutex and the bookkeeping are touched. */
  lemma NonHolderNeverReleases(states: seq<System>, actions: seq<Action>, tasks: nat, k: nat, t: Task)
    requires IsRun(states, actions) && states[0] == Initial(tasks) && k < |states|
    requires Enabled(states[k], Leave(t)) && states[k].mutex.holder != Some(t)
    ensures Do(states[k], Leave(t)) == At(states[k], t, Panicked(NotOwner))
  {
    ForeignOwnerUnreachable(states, actions, tasks, k);
  }

  /** While the depth counts, an unlock is stopped before the mutex is touched exactly when the caller does not hold it. */
  lemma NonHolderIsStopped(s: System, t: Task)
    requires Tracks(s) && Enabled(s, Leave(t))
    ensures Do(s, Leave(t)).places[t] == Panicked(NotOwner) <==> s.mutex.holder != Some(t)
    ensures Do(s, Leave(t)).mutex == s.mutex
    ensures s.mutex.holder != Some(t) ==> Do(s, Leave(t)).held == s.held
  {
    assert s.places[t].Outside?;
    if s.mutex.holder == Some(t) {
      assert s.mutex.count == s.held.depth;
    }
  }

  /** A lock and its unlock leave owner, depth and mutex as they were. */
  lemma UnlockUndoesLock(s: System, t: Task)
    requires Tracks(s) && Enabled(s, Acquire(t)) && s.held.depth < DEPTH_MAX
    ensures var a := Do(s, Acquire(t));
      && Enabled(a, Enter(t)) && Enabled(Do(a, Enter(t)), Leave(t))
      && (var b := Do(Do(a, Enter(t)), Leave(t)); Enabled(b, Release(t)) && Do(b, Release(t)) == s)
  {
    assert s.places[t].Outside?;
    var a := Do(s, Acquire(t));
    var b := Do(a, Enter(t));
    var c := Do(b, Leave(t));
    assert s.places[t := Acquired][t := Outside][t := Releasing][t := Outside] == s.places;
    assert b.held.owner == Some(t);
    assert Do(c, Release(t)).places == s.places;
  }

  // ----- what nesting one level too deep does -----

  /** One task, outside both functions, with these counts. */
  function Nested(depth: nat, count: nat): System {
    System(if depth == 0 then FREE else Ownership(Some(0), depth),
           if count == 0 then Mutex(None, 0) else Mutex(Some(0), count), [Outside])
  }

  predicate Reachable(s: System, states: seq<System>, actions: seq<Action>) {
    IsRun(states, actions) && states[0] == Initial(1) && states[|actions|] == s
  }

  lemma OneMoreAction(s: System, states: seq<System>, actions: seq<Action>, a: Action)
    requires Reachable(s, states, actions) && Enabled(s, a)
    ensures Reachable(Do(s, a), states + [Do(s, a)], actions + [a])
  {
    var ss, aa := states + [Do(s, a)], actions + [a];
    forall k | 0 <= k < |aa| ensures Enabled(ss[k], aa[k]) && ss[k + 1] == Do(ss[k], aa[k]) {
      if k < |actions| { assert ss[k] == states[k] && ss[k + 1] == states[k + 1] && aa[k] == actions[k]; }
    }
  }

  function Least(a: nat, b: nat): nat { if a < b then a else b }

  lemma {:induction false} LockTimes(n: nat) returns (states: seq<System>, actions: seq<Action>)
    ensures Reachable(Nested(Least(n, DEPTH_MAX), n), states, actions)
    decreases n
  {
    if n == 0 {
      states, actions := [Initial(1)], [];
      assert Initial(1).places == [Outside];
    } else {
      states, actions := LockTimes(n - 1);
      var s := Nested(Least(n - 1, DEPTH_MAX), n - 1);
      var a := Do(s, Acquire(0));
      OneMoreAction(s, states, actions, Acquire(0));
      OneMoreAction(a, states + [a], actions + [Acquire(0)], Enter(0));
      states, actions := states + [a] + [Do(a, Enter(0))], actions + [Acquire(0)] + [Enter(0)];
      assert Do(a, Enter(0)) == Nested(Least(n, DEPTH_MAX), n);
    }
  }

  lemma {:induction false} UnlockTimes(d: nat, c: nat, k: nat, states: seq<System>, actions: seq<Action>)
    returns (ss: seq<System>, aa: seq<Action>)
    requires Reachable(Nested(d, c), states, actions) && k <= d <= DEPTH_MAX && k < c
    ensures Reachable(Nested(d - k, c - k), ss, aa)
    decreases k
  {
    if k == 0 {
      ss, aa := states, actions;
    } else {
      ss, aa := UnlockTimes(d, c, k - 1, states, actions);
      var s := Nested(d - (k - 1), c - (k - 1));
      var a := Do(s, Leave(0));
      OneMoreAction(s, ss, aa, Leave(0));
      OneMoreAction(a, ss + [a], aa + [Leave(0)], Release(0));
      ss, aa := ss + [a] + [Do(a, Release(0))], aa + [Leave(0)] + [Release(0)];
      assert Do(a, Release(0)) == Nested(d - k, c - k);
    }
  }

  /** The bound is tight: a task that locks 65536 times and unlocks 65535 times still holds the mutex while the
      bookkeeping says that the bus is free, so its last unlock panics and the mutex is never released. */
  lemma OneLevelTooDeep() returns (states: seq<System>, actions: seq<Action>)
    ensures Reachable(Nested(0, 1), states, actions) && !Tracks(Nested(0, 1))
    ensures Do(Nested(0, 1), Leave(0)) == Nested(0, 1).(places := [Panicked(NotOwner)])
  {
    states, actions := LockTimes(DEPTH_MAX + 1);
    states, actions := UnlockTimes(DEPTH_MAX, DEPTH_MAX + 1, DEPTH_MAX, states, actions);
    assert [Outside][0 := Panicked(NotOwner)] == [Panicked(NotOwner)];
    var s := Nested(0, 1);
    assert s.places[0] == Outside && s.mutex.holder == Some(0);
  }
}
