/** Whole histories of kicks and updates: nothing kicked is forgotten, the gap statistic is the true maximum,
    and an update flags exactly the silent tasks. */
module HeartbeatRuns {
  import opened Ticks
  import opened Heartbeat

  /** What tasks and the supervisor do, with true times in milliseconds. */
  datatype Event = Kick(id: int, at: nat) | Update(at: nat)

  function Next(m: Monitor, safety: Marks, e: Event): (r: Monitor)
    requires m.Valid()
    ensures r.Valid()
  {
    match e
    case Kick(id, at) => Kicked(m, id, Clock(at))
    case Update(at) => Updated(m, safety, Clock(at))
  }

  function Run(boot: nat, safety: Marks, history: seq<Event>): (m: Monitor)
    ensures m.Valid()
    decreases |history|
  {
    if history == [] then Booted(Clock(boot))
    else Next(Run(boot, safety, history[..|history| - 1]), safety, history[|history| - 1])
  }

  /** The times at which a task kicked. */
  function Kicks(history: seq<Event>, id: nat): seq<nat>
    decreases |history|
  {
    if history == [] then []
    else
      var rest, e := Kicks(history[..|history| - 1], id), history[|history| - 1];
      if e.Kick? && e.id == id then rest + [e.at] else rest
  }

  function Gap(times: seq<nat>, i: nat): U32
    requires 0 < i < |times|
  {
    Elapsed(Clock(times[i]), Clock(times[i - 1]))
  }

  function GreatestGap(times: seq<nat>): U32
    decreases |times|
  {
    if |times| < 2 then 0 else Max(GreatestGap(times[..|times| - 1]), Gap(times, |times| - 1))
  }

  function AtMost(n: nat): U32 { if n < 0xFFFF_FFFF then n else 0xFFFF_FFFF }

  /** What the monitor records of one task, given when it kicked. */
  ghost predicate Records(m: Monitor, id: nat, times: seq<nat>)
    requires m.Valid() && id < COUNT
  {
    && (id in m.seen <==> times != []) && m.count[id] == AtMost(|times|)
    && (times != [] ==> m.last[id] == Clock(times[|times| - 1]))
    && m.maxGap[id] == GreatestGap(times)
    && m.gap[id] == (if |times| < 2 then 0 else Gap(times, |times| - 1))
  }

  lemma KickRecords(m: Monitor, id: nat, times: seq<nat>, at: nat)
    requires m.Valid() && id < COUNT && Records(m, id, times)
    ensures Records(Kicked(m, id, Clock(at)), id, times + [at])
  {
    var ks := times + [at];
    assert ks[..|ks| - 1] == times;
    if times != [] { assert Gap(ks, |ks| - 1) == Elapsed(Clock(at), m.last[id]); }
  }

  lemma OtherKickRecords(m: Monitor, id: nat, times: seq<nat>, other: int, now: U32)
    requires m.Valid() && id < COUNT && Records(m, id, times) && other != id
    ensures Records(Kicked(m, other, now), id, times)
  {
  }

  /** After any history the monitor records every task's kicks: no seen bit is lost, and the gap statistics are those
      of consecutive kicks. */
  lemma {:induction false} RunRecordsKicks(boot: nat, safety: Marks, history: seq<Event>, id: nat)
    requires id < COUNT
    ensures Records(Run(boot, safety, history), id, Kicks(history, id)) && Run(boot, safety, history).boot == Clock(boot)
    decreases |history|
  {
    if history != [] {
      var init, e := history[..|history| - 1], history[|history| - 1];
      RunRecordsKicks(boot, safety, init, id);
      var m := Run(boot, safety, init);
      if e.Kick? && e.id == id {
        KickRecords(m, id, Kicks(init, id), e.at);
      } else if e.Kick? {
        OtherKickRecords(m, id, Kicks(init, id), e.id, Clock(e.at));
      }
    }
  }

  // ----- true time -----

  function TrueGap(times: seq<nat>, i: nat): int
    requires 0 < i < |times|
  {
    times[i] as int - times[i - 1] as int
  }

  ghost predicate Spaced(times: seq<nat>) { forall i | 0 < i < |times| :: 0 <= TrueGap(times, i) < WRAP }

  lemma SpacedPrefix(times: seq<nat>)
    requires Spaced(times) && times != []
    ensures Spaced(times[..|times| - 1])
    ensures forall i | 0 < i < |times| - 1 :: TrueGap(times[..|times| - 1], i) == TrueGap(times, i)
  {
    var init := times[..|times| - 1];
    forall i | 0 < i < |init| ensures TrueGap(init, i) == TrueGap(times, i) { }
  }

  lemma GapIsTrue(times: seq<nat>, i: nat)
    requires Spaced(times) && 0 < i < |times|
    ensures Gap(times, i) == TrueGap(times, i)
  {
    assert 0 <= TrueGap(times, i) < WRAP;
    ElapsedIsTrue(times[i], times[i - 1]);
  }

  lemma {:induction false} NoGapIsGreater(times: seq<nat>, i: nat)
    requires Spaced(times) && 0 < i < |times|
    ensures TrueGap(times, i) <= GreatestGap(times)
    decreases |times|
  {
    var n := |times| - 1;
    GapIsTrue(times, n);
    if i < n {
      SpacedPrefix(times);
      NoGapIsGreater(times[..n], i);
    }
  }

  lemma {:induction false} SomeGapIsGreatest(times: seq<nat>) returns (i: nat)
    requires Spaced(times) && |times| >= 2
    ensures 0 < i < |times| && TrueGap(times, i) == GreatestGap(times)
    decreases |times|
  {
    i := |times| - 1;
    GapIsTrue(times, i);
    if GreatestGap(times) != Gap(times, i) {
      SpacedPrefix(times);
      assert GreatestGap(times[..i]) > 0;
      i := SomeGapIsGreatest(times[..i]);
    }
  }

  /** With less than one wrap between consecutive kicks, the recorded maximum is the greatest true gap. */
  lemma MaxGapIsTrue(boot: nat, safety: Marks, history: seq<Event>, id: nat)
    requires id < COUNT && Spaced(Kicks(history, id))
    ensures var ks, g := Kicks(history, id), Run(boot, safety, history).maxGap[id];
      && (forall i | 0 < i < |ks| :: TrueGap(ks, i) <= g)
      && (if |ks| >= 2 then exists i :: 0 < i < |ks| && TrueGap(ks, i) == g else g == 0)
  {
    var ks := Kicks(history, id);
    RunRecordsKicks(boot, safety, history, id);
    forall i | 0 < i < |ks| ensures TrueGap(ks, i) <= GreatestGap(ks) { NoGapIsGreater(ks, i); }
    if |ks| >= 2 { var i := SomeGapIsGreatest(ks); }
  }

  /** The task has truly been silent for longer than it may. */
  ghost predicate Silent(boot: nat, times: seq<nat>, id: nat, t: nat)
    requires id < COUNT
  {
    if times == [] then t >= boot + GRACE_MS else t > times[|times| - 1] + Timeout(id)
  }

  /** Less than one wrap has passed since the task's last kick, or since boot if it never kicked. */
  ghost predicate WithinWrap(boot: nat, times: seq<nat>, t: nat) {
    if times == [] then boot <= t < boot + WRAP else times[|times| - 1] <= t < times[|times| - 1] + WRAP
  }

  /** An update flags a task exactly when it has truly been silent too long; safety and logger masks follow. */
  lemma UpdateFlagsSilentTasks(boot: nat, safety: Marks, history: seq<Event>, id: nat, t: nat)
    requires id < COUNT && WithinWrap(boot, Kicks(history, id), t)
    ensures var m := Run(boot, safety, history + [Update(t)]);
      && (id in m.stale <==> Silent(boot, Kicks(history, id), id, t))
      && (id in m.safetyStale <==> id in safety && Silent(boot, Kicks(history, id), id, t))
      && (id in m.loggerStale <==> id == LOGGER && Silent(boot, Kicks(history, id), id, t))
  {
    var all, ks := history + [Update(t)], Kicks(history, id);
    assert all[..|all| - 1] == history;
    RunRecordsKicks(boot, safety, history, id);
    if ks == [] { ElapsedIsTrue(t, boot); } else { ElapsedIsTrue(t, ks[|ks| - 1]); }
  }

  /** At time t more than limit milliseconds have passed since the last of these times. */
  predicate SilentFor(times: seq<nat>, limit: nat, t: nat) { times != [] && t > times[|times| - 1] + limit }

  /** The times that the tasks may stay silent, task by task, and the 3 s in which they must first be seen. */
  lemma SilenceAllowed(boot: nat, safety: Marks, history: seq<Event>, id: nat, t: nat)
    requires id < 8 && WithinWrap(boot, Kicks(history, id), t)
    ensures var stale, ks := Run(boot, safety, history + [Update(t)]).stale, Kicks(history, id);
      && (ks == [] ==> (id in stale <==> t >= boot + 3000))
      && (ks != [] && (id == 0 || id == 2) ==> (id in stale <==> SilentFor(ks, 3000, t)))
      && (ks != [] && id == 1 ==> (id in stale <==> SilentFor(ks, 200, t)))
      && (ks != [] && (id == 3 || id == 4) ==> (id in stale <==> SilentFor(ks, 2000, t)))
      && (ks != [] && (id == 5 || id == 7) ==> (id in stale <==> SilentFor(ks, 500, t)))
      && (ks != [] && id == 6 ==> (id in stale <==> SilentFor(ks, 1000, t)))
  {
    UpdateFlagsSilentTasks(boot, safety, history, id, t);
  }

  /** Only the logger, task 4, raises the logger flag, and only tasks of the safety mask the safety flag. */
  lemma FlagsAreSelective(boot: nat, safety: Marks, history: seq<Event>, t: nat)
    ensures var m := Run(boot, safety, history + [Update(t)]);
      && (m.loggerStale != {} <==> 4 in m.stale)
      && (m.safetyStale != {} <==> exists id :: id in safety && id in m.stale)
  {
    var all := history + [Update(t)];
    assert all[..|all| - 1] == history;
    var m := Run(boot, safety, all);
    if id :| id in safety && id in m.stale { assert id in m.safetyStale; }
    if 4 in m.stale { assert 4 in m.loggerStale; }
  }

  /** Beyond one wrap the promise fails: a task that stays silent for a whole wrap looks freshly kicked. */
  lemma SilentForAWrapLooksFresh(boot: nat, safety: Marks, history: seq<Event>, id: nat, t: nat)
    requires id < COUNT && Kicks(history, id) != [] && t == Kicks(history, id)[|Kicks(history, id)| - 1] + WRAP
    ensures Silent(boot, Kicks(history, id), id, t) && id !in Run(boot, safety, history + [Update(t)]).stale
  {
    var all := history + [Update(t)];
    assert all[..|all| - 1] == history;
    RunRecordsKicks(boot, safety, history, id);
    ClockRepeats(t - WRAP);
  }
}
