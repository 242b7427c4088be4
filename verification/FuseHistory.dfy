/** What the fuse observer's two flags remember of a whole run: the latch, that utilisation reached 1 and has stayed above
    one half since; the initialisation behind its authority, a long enough quiet stretch. */
module FuseHistory {
  import opened Elementary
  import opened FuseCurve
  import opened FuseObserver
  import opened FuseProperties
  import opened FuseSteps

  lemma {:induction false} RunSnoc(m: Functions, c: Config, s: State, inputs: seq<Input>, i: Input)
    requires m.Valid()
    ensures Run(m, c, s, inputs + [i]) == Advance(m, c, Run(m, c, s, inputs), i)
    decreases |inputs|
  {
    var all := inputs + [i];
    if inputs == [] {
      assert all[1..] == [];
      assert Run(m, c, Advance(m, c, s, i), []) == Advance(m, c, s, i);
    } else {
      assert all[1..] == inputs[1..] + [i];
      RunSnoc(m, c, Advance(m, c, s, inputs[0]), inputs[1..], i);
    }
  }

  // ----- the latch -----

  /** The utilisation after the first k inputs. */
  ghost function After(m: Functions, c: Config, s: State, inputs: seq<Input>, k: nat): real
    requires m.Valid() && k <= |inputs|
  {
    Run(m, c, s, inputs[..k]).utilization
  }

  /** The utilisation was at least 1 after k inputs, and above one half after every one since. */
  ghost predicate HighSince(m: Functions, c: Config, s: State, inputs: seq<Input>, k: nat)
    requires m.Valid()
  {
    && k <= |inputs| && After(m, c, s, inputs, k) >= 1.0
    && forall j: nat | k <= j <= |inputs| :: After(m, c, s, inputs, j) > 0.5
  }

  lemma LatchStep(m: Functions, c: Config, s: State, i: Input)
    requires m.Valid() && c.Valid() && Coherent(c, s)
    ensures var n := Advance(m, c, s, i); n.exhausted <==> n.utilization >= 1.0 || (s.exhausted && n.utilization > 0.5)
  {
  }

  lemma PrefixesStay(m: Functions, c: Config, s: State, inputs: seq<Input>, i: Input, k: nat)
    requires m.Valid() && k <= |inputs|
    ensures After(m, c, s, inputs + [i], k) == After(m, c, s, inputs, k)
  {
    assert (inputs + [i])[..k] == inputs[..k];
  }

  lemma HighGrows(m: Functions, c: Config, s: State, inputs: seq<Input>, i: Input, k: nat)
    requires m.Valid() && k <= |inputs|
    ensures HighSince(m, c, s, inputs + [i], k) <==>
      HighSince(m, c, s, inputs, k) && After(m, c, s, inputs + [i], |inputs| + 1) > 0.5
  {
    forall j: nat | j <= |inputs| ensures After(m, c, s, inputs + [i], j) == After(m, c, s, inputs, j) {
      PrefixesStay(m, c, s, inputs, i, j);
    }
  }

  ghost predicate WasHigh(m: Functions, c: Config, s: State, inputs: seq<Input>)
    requires m.Valid()
  {
    exists k: nat :: HighSince(m, c, s, inputs, k)
  }

  lemma HighSnoc(m: Functions, c: Config, s: State, inputs: seq<Input>, i: Input, u: real)
    requires m.Valid() && u == Run(m, c, s, inputs + [i]).utilization
    ensures WasHigh(m, c, s, inputs + [i]) <==> u >= 1.0 || (WasHigh(m, c, s, inputs) && u > 0.5)
  {
    var all := inputs + [i];
    assert all[..|all|] == all;
    if k: nat :| HighSince(m, c, s, all, k) {
      if k <= |inputs| { HighGrows(m, c, s, inputs, i, k); }
    }
    if k: nat :| HighSince(m, c, s, inputs, k) {
      HighGrows(m, c, s, inputs, i, k);
    }
    if u >= 1.0 { assert HighSince(m, c, s, all, |all|); }
  }

  /** After any run from a fresh or seeded state, the budget is exhausted exactly if the utilisation was at least 1 at some
      point and has stayed above one half ever since. */
  lemma {:induction false} LatchedIffHighSince(m: Functions, c: Config, s: State, inputs: seq<Input>)
    requires m.Valid() && c.Valid() && Coherent(c, s) && (s.exhausted <==> s.utilization >= 1.0)
    ensures Run(m, c, s, inputs).exhausted <==> WasHigh(m, c, s, inputs)
    decreases |inputs|
  {
    if inputs == [] {
      assert inputs[..0] == inputs;
      if s.exhausted { assert HighSince(m, c, s, inputs, 0); }
    } else {
      var init, i := inputs[..|inputs| - 1], inputs[|inputs| - 1];
      assert inputs == init + [i];
      LatchedIffHighSince(m, c, s, init);
      RunCoherent(m, c, s, init);
      RunSnoc(m, c, s, init, i);
      LatchStep(m, c, Run(m, c, s, init), i);
      HighSnoc(m, c, s, init, i, Run(m, c, s, inputs).utilization);
    }
  }

  // ----- initialisation -----

  /** No more than the quiescent current, uncertainty included. */
  predicate Quiet(c: Config, i: Input) { (if i.current < 0.0 then -i.current else i.current) + i.uncertainty <= c.quiescent }

  predicate AllQuiet(c: Config, inputs: seq<Input>) { forall k | 0 <= k < |inputs| :: InputValid(inputs[k]) ==> Quiet(c, inputs[k]) }

  /** The time that the valid inputs cover. */
  function MeasuredTime(inputs: seq<Input>): real
    decreases |inputs|
  {
    if inputs == [] then 0.0
    else
      var n := |inputs| - 1;
      MeasuredTime(inputs[..n]) + (if InputValid(inputs[n]) then inputs[n].elapsed else 0.0)
  }

  /** The inputs from a to b, the last of them valid, are all quiet and cover the soak time. */
  ghost predicate Soak(c: Config, inputs: seq<Input>, a: nat, b: nat) {
    && a < b <= |inputs| && InputValid(inputs[b - 1]) && AllQuiet(c, inputs[a..b]) && MeasuredTime(inputs[a..b]) >= c.soak
  }

  ghost predicate Soaked(c: Config, inputs: seq<Input>) { exists a: nat, b: nat :: Soak(c, inputs, a, b) }

  /** Everything since a is quiet, and a is where the last loud input ended, or the beginning. */
  ghost predicate QuietSince(c: Config, inputs: seq<Input>, a: nat) {
    && a <= |inputs| && AllQuiet(c, inputs[a..])
    && (a > 0 ==> InputValid(inputs[a - 1]) && !Quiet(c, inputs[a - 1]))
  }

  lemma MeasuredSnoc(inputs: seq<Input>, i: Input)
    ensures MeasuredTime(inputs + [i]) == MeasuredTime(inputs) + (if InputValid(i) then i.elapsed else 0.0)
  {
    assert (inputs + [i])[..|inputs|] == inputs;
  }

  lemma {:induction false} MeasuredSuffix(inputs: seq<Input>, a: nat)
    requires a <= |inputs|
    ensures 0.0 <= MeasuredTime(inputs[a..]) <= MeasuredTime(inputs)
    decreases |inputs|
  {
    if inputs != [] {
      var n := |inputs| - 1;
      if a <= n {
        MeasuredSuffix(inputs[..n], a);
        assert inputs[a..] == inputs[..n][a..] + [inputs[n]];
        MeasuredSnoc(inputs[..n][a..], inputs[n]);
      } else {
        MeasuredSuffix(inputs[..n], n);
        assert inputs[a..] == [];
      }
    }
  }

  lemma SuffixGrows(inputs: seq<Input>, i: Input, a: nat)
    requires a <= |inputs|
    ensures (inputs + [i])[a..] == inputs[a..] + [i]
    ensures MeasuredTime((inputs + [i])[a..]) == MeasuredTime(inputs[a..]) + (if InputValid(i) then i.elapsed else 0.0)
  {
    assert (inputs + [i])[a..] == inputs[a..] + [i];
    MeasuredSnoc(inputs[a..], i);
  }

  lemma SoakStays(c: Config, inputs: seq<Input>, i: Input, a: nat, b: nat)
    requires b <= |inputs|
    ensures Soak(c, inputs + [i], a, b) <==> Soak(c, inputs, a, b)
  {
    if a < b { assert (inputs + [i])[a..b] == inputs[a..b]; }
  }

  /** A stretch that ends here starts after the last loud input, so it covers no more than the time since. */
  lemma SoakEndsHere(c: Config, inputs: seq<Input>, start: nat, a: nat)
    requires QuietSince(c, inputs, start) && Soak(c, inputs, a, |inputs|)
    ensures MeasuredTime(inputs[start..]) >= c.soak
  {
    if a < start {
      assert false;
    }
    assert inputs[start..][a - start..] == inputs[a..|inputs|];
    MeasuredSuffix(inputs[start..], a - start);
  }

  lemma QuietGrows(c: Config, inputs: seq<Input>, i: Input, a: nat)
    requires QuietSince(c, inputs, a) && (InputValid(i) ==> Quiet(c, i))
    ensures QuietSince(c, inputs + [i], a)
  {
    SuffixGrows(inputs, i, a);
  }

  lemma SoakedSnoc(c: Config, inputs: seq<Input>, i: Input, start: nat)
    requires QuietSince(c, inputs + [i], start)
    ensures Soaked(c, inputs + [i]) <==>
      Soaked(c, inputs) || (InputValid(i) && start <= |inputs| && MeasuredTime((inputs + [i])[start..]) >= c.soak)
  {
    var all := inputs + [i];
    if a: nat, b: nat :| Soak(c, all, a, b) {
      if b <= |inputs| { SoakStays(c, inputs, i, a, b); } else {
        SoakEndsHere(c, all, start, a);
        if start > |inputs| { assert false; }
      }
    }
    if a: nat, b: nat :| Soak(c, inputs, a, b) { SoakStays(c, inputs, i, a, b); }
    if InputValid(i) && start <= |inputs| && MeasuredTime(all[start..]) >= c.soak {
      assert all[start..|all|] == all[start..];
      assert Soak(c, all, start, |all|);
    }
  }

  lemma SoakStep(m: Functions, c: Config, s: State, i: Input)
    requires m.Valid() && c.Valid()
    ensures var n := Advance(m, c, s, i);
      if !InputValid(i) then n.initialized == s.initialized && n.quiescentTime == s.quiescentTime
      else if s.initialized then n.initialized
      else if Quiet(c, i) then n.quiescentTime == s.quiescentTime + i.elapsed && (n.initialized <==> n.quiescentTime >= c.soak)
      else n.quiescentTime == 0.0 && !n.initialized
  {
  }

  /** After any run from a fresh state, the state is initialised exactly if some stretch of quiet inputs covered the soak
      time. */
  lemma {:induction false} InitializedIffSoaked(m: Functions, c: Config, inputs: seq<Input>) returns (start: nat)
    requires m.Valid() && c.Valid()
    ensures Run(m, c, INITIAL, inputs).initialized <==> Soaked(c, inputs)
    ensures QuietSince(c, inputs, start)
    ensures !Soaked(c, inputs) ==> Run(m, c, INITIAL, inputs).quiescentTime == MeasuredTime(inputs[start..])
    decreases |inputs|
  {
    if inputs == [] {
      start := 0;
    } else {
      var init, i := inputs[..|inputs| - 1], inputs[|inputs| - 1];
      assert inputs == init + [i];
      start := InitializedIffSoaked(m, c, init);
      RunSnoc(m, c, INITIAL, init, i);
      SoakStep(m, c, Run(m, c, INITIAL, init), i);
      if InputValid(i) && !Quiet(c, i) {
        start := |inputs|;
        assert inputs[start..] == [];
      } else {
        SuffixGrows(init, i, start);
        QuietGrows(c, init, i, start);
      }
      SoakedSnoc(c, init, i, start);
    }
  }

  /** Along any run from a fresh state, a valid step grants authority exactly for a validated model after a soak. */
  lemma AuthorityIffSoaked(m: Functions, c: Config, inputs: seq<Input>, i: Input)
    requires m.Valid() && c.Valid() && InputValid(i)
    ensures Report(m, c, Run(m, c, INITIAL, inputs + [i]), i).authorityValid <==> i.modelValidated && Soaked(c, inputs + [i])
  {
    var start := InitializedIffSoaked(m, c, inputs + [i]);
    ReportedState(m, c, Run(m, c, INITIAL, inputs + [i]), i);
  }

  // ----- refusals and counts -----

  /** A step is refused exactly for an invalid configuration, a negative uncertainty, no elapsed time, or a measurement that is not
      valid, calibrated and of known polarity; it then only counts, while a step that is not refused counts among the updates. */
  lemma RefusedIff(m: Functions, c: Config, s: State, i: Input)
    requires m.Valid()
    ensures var n := Advance(m, c, s, i);
      if !c.Valid() || i.uncertainty < 0.0 || i.elapsed <= 0.0 || !i.measurementValid || !i.calibrated || !i.polarityValidated
      then n == s.(invalidCount := OneMore(s.invalidCount))
      else n.invalidCount == s.invalidCount && n.updateCount == OneMore(s.updateCount)
  {
  }

  /** A 64-bit counter that stops at its maximum. */
  function OneMore(n: nat): nat { if n == 18446744073709551615 then n else n + 1 }

  /** Why a configuration is rejected: a quantity out of its range, or an array of the wrong size or with a value out of range. */
  lemma RejectedIff(c: Config)
    ensures !c.Valid() <==>
      || |c.horizons| != 4 || |c.dischargeCaps| != 4 || |c.chargeCaps| != 4
      || c.rated < 79.999999999 || c.rated > 80.000000001 || c.fraction <= 0.0 || c.fraction > 1.0
      || c.tau <= 0.0 || c.soak < 0.0 || c.quiescent < 0.0 || c.margin < 0.0
      || c.minDerating <= 0.0 || c.minDerating > 1.0 || c.maxMultiple < 1.0 || c.fitScale <= 0.0 || c.fitExponent <= 0.0
      || c.maxTime <= 0.0 || c.minTime <= 0.0 || c.minTime >= c.maxTime
      || exists h :: 0 <= h < 4 && (c.horizons[h] <= 0.0 || c.dischargeCaps[h] < 0.0 || c.chargeCaps[h] < 0.0)
  {
  }

  function AtMostMax(n: nat): nat { if n < 18446744073709551615 then n else 18446744073709551615 }

  function ValidInputs(inputs: seq<Input>): nat
    decreases |inputs|
  {
    if inputs == [] then 0
    else ValidInputs(inputs[..|inputs| - 1]) + (if InputValid(inputs[|inputs| - 1]) then 1 else 0)
  }

  /** After any run from a fresh state the two counters hold the numbers of valid and of invalid inputs, up to 2^64 - 1. */
  lemma {:induction false} CountsAreTrue(m: Functions, c: Config, inputs: seq<Input>)
    requires m.Valid() && c.Valid()
    ensures Run(m, c, INITIAL, inputs).updateCount == AtMostMax(ValidInputs(inputs)) && ValidInputs(inputs) <= |inputs|
    ensures Run(m, c, INITIAL, inputs).invalidCount == AtMostMax(|inputs| - ValidInputs(inputs))
    decreases |inputs|
  {
    if inputs != [] {
      var init, i := inputs[..|inputs| - 1], inputs[|inputs| - 1];
      assert inputs == init + [i];
      CountsAreTrue(m, c, init);
      RunSnoc(m, c, INITIAL, init, i);
    }
  }
}
