/** The thermistor table (generate_thermistor_model.py): what its validation accepts, and the lookup that inverts
    the piecewise-linear resistance curve. */
module Thermistor {
  import opened Reals

  datatype Row = Row(temperature: real, nominal: real, least: real, greatest: real)

  type Table = seq<Row>

  // ----- validation -----

  const EXPECTED_PART: string := "NTCLE350E4103FHB0"
  const EXPECTED_R25: real := 10000.0
  const EXPECTED_B2585: real := 3984.0
  const EXPECTED_ROWS: nat := 281
  const FIRST_C: real := -20.0
  const LAST_C: real := 120.0
  const STEP_C: real := 0.5

  function Abs(x: real): real { if x < 0.0 then -x else x }

  function Max(a: real, b: real): real { if b > a then b else a }

  /** Closeness with a relative and an absolute tolerance. */
  predicate Close(a: real, b: real, relative: real, absolute: real) {
    Abs(a - b) <= Max(relative * Max(Abs(a), Abs(b)), absolute)
  }

  predicate CloseTemperature(a: real, b: real) { Close(a, b, 0.000000001, 0.000000001) }

  datatype Problem = Part | R25 | B2585 | RowCount | First | Last | Grid(i: nat) | NonPositive(i: nat) | Tolerance(i: nat) | Order(i: nat)

  datatype Verdict = Accepted | Rejected(problem: Problem)

  function GridTemperature(i: nat): real { FIRST_C + STEP_C * i as real }

  function RowVerdict(rows: Table, i: nat): Verdict
    requires i < |rows|
  {
    var row := rows[i];
    if !CloseTemperature(row.temperature, GridTemperature(i)) then Rejected(Grid(i))
    else if !(row.nominal > 0.0 && row.least > 0.0 && row.greatest > 0.0) then Rejected(NonPositive(i))
    else if !(row.least <= row.nominal <= row.greatest) then Rejected(Tolerance(i))
    else if i > 0 && !(rows[i - 1].nominal > row.nominal) then Rejected(Order(i))
    else Accepted
  }

  /** The verdict of the first row from i on that has a problem. */
  function RowsVerdict(rows: Table, i: nat): Verdict
    requires i <= |rows|
    decreases |rows| - i
  {
    if i == |rows| then Accepted
    else if RowVerdict(rows, i).Rejected? then RowVerdict(rows, i)
    else RowsVerdict(rows, i + 1)
  }

  function HeaderVerdict(part: string, r25: real, b2585: real, rows: Table): Verdict {
    if part != EXPECTED_PART then Rejected(Part)
    else if !Close(r25, EXPECTED_R25, 0.0, 0.000001) then Rejected(R25)
    else if !Close(b2585, EXPECTED_B2585, 0.0, 0.000001) then Rejected(B2585)
    else if |rows| != EXPECTED_ROWS then Rejected(RowCount)
    else if !CloseTemperature(rows[0].temperature, FIRST_C) then Rejected(First)
    else if !CloseTemperature(rows[|rows| - 1].temperature, LAST_C) then Rejected(Last)
    else Accepted
  }

  method Validate(part: string, r25: real, b2585: real, rows: Table) returns (v: Verdict)
    ensures v == if HeaderVerdict(part, r25, b2585, rows).Rejected? then HeaderVerdict(part, r25, b2585, rows) else RowsVerdict(rows, 0)
  {
    v := HeaderVerdict(part, r25, b2585, rows);
    if v.Rejected? {
      return;
    }
    for i := 0 to |rows|
      invariant RowsVerdict(rows, 0) == RowsVerdict(rows, i) && v == Accepted
    {
      v := RowVerdict(rows, i);
      if v.Rejected? {
        return;
      }
    }
  }

  /** What the lookup needs: resistance strictly falls while temperature strictly rises. */
  ghost predicate WellFormed(rows: Table) {
    && rows != []
    && (forall i, j | 0 <= i < j < |rows| :: rows[i].nominal > rows[j].nominal)
    && (forall i, j | 0 <= i < j < |rows| :: rows[i].temperature < rows[j].temperature)
  }

  lemma {:induction false} AllRowsAccepted(rows: Table, i: nat, k: nat)
    requires i <= k < |rows| && RowsVerdict(rows, i) == Accepted
    ensures RowVerdict(rows, k) == Accepted
    decreases k - i
  {
    if i < k { AllRowsAccepted(rows, i + 1, k); }
  }

  lemma {:induction false} AcceptedFalls(rows: Table, i: nat, j: nat)
    requires i < j < |rows| && RowsVerdict(rows, 0) == Accepted
    ensures rows[i].nominal > rows[j].nominal
    decreases j - i
  {
    AllRowsAccepted(rows, 0, j);
    if i + 1 < j { AcceptedFalls(rows, i, j - 1); }
  }

  /** Close to the grid of up to 281 points means within a millionth of a degree of it. */
  lemma GridIsTight(t: real, i: nat)
    requires i < EXPECTED_ROWS && CloseTemperature(t, GridTemperature(i))
    ensures Abs(t - GridTemperature(i)) <= 0.000001
  {
    var g := GridTemperature(i);
    assert -20.0 <= g <= 120.0;
  }

  lemma AcceptedRises(rows: Table, i: nat, j: nat)
    requires i < j < |rows| == EXPECTED_ROWS && RowsVerdict(rows, 0) == Accepted
    ensures rows[i].temperature < rows[j].temperature
  {
    AllRowsAccepted(rows, 0, i);
    AllRowsAccepted(rows, 0, j);
    GridIsTight(rows[i].temperature, i);
    GridIsTight(rows[j].temperature, j);
    assert GridTemperature(j) - GridTemperature(i) >= 0.5;
  }

  /** Every accepted table meets what the lookup needs. */
  lemma AcceptedIsWellFormed(part: string, r25: real, b2585: real, rows: Table)
    requires HeaderVerdict(part, r25, b2585, rows) == Accepted && RowsVerdict(rows, 0) == Accepted
    ensures WellFormed(rows)
  {
    forall i, j | 0 <= i < j < |rows| ensures rows[i].nominal > rows[j].nominal && rows[i].temperature < rows[j].temperature {
      AcceptedFalls(rows, i, j);
      AcceptedRises(rows, i, j);
    }
  }

  /** Within the larger of a thousand-millionth of the larger magnitude and a thousand-millionth of a degree. */
  predicate NearTemperature(t: real, expected: real) {
    var d, scale := if t < expected then expected - t else t - expected, if Abs(t) > Abs(expected) then Abs(t) else Abs(expected);
    d <= 0.000000001 || d <= 0.000000001 * scale
  }

  lemma NearIsClose(t: real, expected: real)
    ensures CloseTemperature(t, expected) <==> NearTemperature(t, expected)
  {
  }

  /** What a single row must satisfy: on the grid of half degrees from -20 C, positive, within its own tolerance band, and below the
      row before it. */
  predicate RowHolds(rows: Table, i: nat)
    requires i < |rows|
  {
    && NearTemperature(rows[i].temperature, -20.0 + 0.5 * i as real)
    && rows[i].least > 0.0 && rows[i].least <= rows[i].nominal && rows[i].nominal <= rows[i].greatest
    && (i > 0 ==> rows[i].nominal < rows[i - 1].nominal)
  }

  lemma RowAcceptedIff(rows: Table, i: nat)
    requires i < |rows|
    ensures RowVerdict(rows, i) == Accepted <==> RowHolds(rows, i)
  {
    NearIsClose(rows[i].temperature, -20.0 + 0.5 * i as real);
  }

  lemma {:induction false} RowsAcceptedIff(rows: Table, i: nat)
    requires i <= |rows|
    ensures RowsVerdict(rows, i) == Accepted <==> forall k | i <= k < |rows| :: RowHolds(rows, k)
    decreases |rows| - i
  {
    if i < |rows| {
      RowAcceptedIff(rows, i);
      RowsAcceptedIff(rows, i + 1);
    }
  }

  /** Validation accepts exactly the table of the expected part: 281 rows from -20 to 120 C, each of which holds. */
  lemma AcceptedIff(part: string, r25: real, b2585: real, rows: Table)
    ensures (HeaderVerdict(part, r25, b2585, rows) == Accepted && RowsVerdict(rows, 0) == Accepted) <==>
      && part == "NTCLE350E4103FHB0" && -0.000001 <= r25 - 10000.0 <= 0.000001 && -0.000001 <= b2585 - 3984.0 <= 0.000001
      && |rows| == 281 && forall k | 0 <= k < |rows| :: RowHolds(rows, k)
  {
    RowsAcceptedIff(rows, 0);
    if |rows| == 281 {
      NearIsClose(rows[0].temperature, -20.0);
      NearIsClose(rows[280].temperature, 120.0);
      assert -20.0 + 0.5 * (0 as nat) as real == -20.0 && -20.0 + 0.5 * (280 as nat) as real == 120.0;
      if forall k | 0 <= k < |rows| :: RowHolds(rows, k) {
        assert RowHolds(rows, 0) && RowHolds(rows, 280);
      }
    }
  }

  /** The problem reported for a row is the first of its own. */
  lemma RowProblem(rows: Table, i: nat)
    requires i < |rows|
    ensures var near, row := NearTemperature(rows[i].temperature, -20.0 + 0.5 * i as real), rows[i];
      var positive, banded := row.nominal > 0.0 && row.least > 0.0 && row.greatest > 0.0, row.least <= row.nominal <= row.greatest;
      && (RowVerdict(rows, i) == Rejected(Grid(i)) <==> !near)
      && (RowVerdict(rows, i) == Rejected(NonPositive(i)) <==> near && !positive)
      && (RowVerdict(rows, i) == Rejected(Tolerance(i)) <==> near && positive && !banded)
      && (RowVerdict(rows, i) == Rejected(Order(i)) <==> near && positive && banded && i > 0 && rows[i - 1].nominal <= row.nominal)
  {
    NearIsClose(rows[i].temperature, -20.0 + 0.5 * i as real);
  }

  // ----- the lookup -----

  function Blend(from: real, to: real, f: real): real { from + f * (to - from) }

  /** The point a fraction f of the way from row k to the next, in temperature and in resistance. */
  function TemperatureAt(rows: Table, k: nat, f: real): real
    requires k + 1 < |rows|
  {
    Blend(rows[k].temperature, rows[k + 1].temperature, f)
  }

  function ResistanceAt(rows: Table, k: nat, f: real): real
    requires k + 1 < |rows|
  {
    Blend(rows[k].nominal, rows[k + 1].nominal, f)
  }

  /** The row whose segment holds a resistance strictly inside the table. */
  function ColdRow(rows: Table, r: real, k: nat): (n: nat)
    requires k + 1 < |rows|
    ensures k <= n && n + 1 < |rows|
    decreases |rows| - k
  {
    if k + 2 == |rows| || r > rows[k + 1].nominal then k else ColdRow(rows, r, k + 1)
  }

  function Share(part: real, whole: real): real
    requires whole > 0.0
  {
    part / whole
  }

  /** The specification of the lookup: clamped outside, interpolated inside. */
  function Temperature(rows: Table, r: real): real
    requires WellFormed(rows)
  {
    if r >= rows[0].nominal then rows[0].temperature
    else if r <= rows[|rows| - 1].nominal then rows[|rows| - 1].temperature
    else
      var k := ColdRow(rows, r, 0);
      TemperatureAt(rows, k, Share(rows[k].nominal - r, rows[k].nominal - rows[k + 1].nominal))
  }

  lemma {:induction false} ColdRowIs(rows: Table, r: real, k: nat, n: nat)
    requires WellFormed(rows) && k <= n && n + 1 < |rows| && rows[n].nominal >= r > rows[n + 1].nominal
    ensures ColdRow(rows, r, k) == n
    decreases n - k
  {
    if k < n {
      assert rows[k + 1].nominal >= rows[n].nominal;
      ColdRowIs(rows, r, k + 1, n);
    }
  }

  method Lookup(rows: Table, r: real) returns (t: real)
    requires WellFormed(rows)
    ensures t == Temperature(rows, r)
  {
    if r >= rows[0].nominal {
      return rows[0].temperature;
    }
    if r <= rows[|rows| - 1].nominal {
      return rows[|rows| - 1].temperature;
    }
    var lo, hi := 0, |rows| - 1;
    while hi - lo > 1
      invariant 0 <= lo < hi < |rows| && rows[lo].nominal >= r > rows[hi].nominal
    {
      var mid := lo + (hi - lo) / 2;
      if r <= rows[mid].nominal {
        lo := mid;
      } else {
        hi := mid;
      }
    }
    ColdRowIs(rows, r, 0, lo);
    var cold, hot := rows[lo], rows[lo + 1];
    var fraction := Share(cold.nominal - r, cold.nominal - hot.nominal);
    t := TemperatureAt(rows, lo, fraction);
  }

  // ----- the curve it inverts -----

  function CoolerRow(rows: Table, t: real, k: nat): (n: nat)
    requires k + 1 < |rows|
    ensures k <= n && n + 1 < |rows|
    decreases |rows| - k
  {
    if k + 2 == |rows| || t < rows[k + 1].temperature then k else CoolerRow(rows, t, k + 1)
  }

  /** The piecewise-linear resistance at a temperature, clamped outside the table. */
  function Resistance(rows: Table, t: real): real
    requires WellFormed(rows)
  {
    if t <= rows[0].temperature then rows[0].nominal
    else if t >= rows[|rows| - 1].temperature then rows[|rows| - 1].nominal
    else
      var k := CoolerRow(rows, t, 0);
      ResistanceAt(rows, k, Share(t - rows[k].temperature, rows[k + 1].temperature - rows[k].temperature))
  }

  lemma {:induction false} CoolerRowIs(rows: Table, t: real, k: nat, n: nat)
    requires WellFormed(rows) && k <= n && n + 1 < |rows| && rows[n].temperature <= t < rows[n + 1].temperature
    ensures CoolerRow(rows, t, k) == n
    decreases n - k
  {
    if k < n {
      assert rows[k + 1].temperature <= rows[n].temperature;
      CoolerRowIs(rows, t, k + 1, n);
    }
  }

  // ----- the lookup inverts the curve -----

  lemma ShareOf(f: real, d: real, x: real)
    requires d > 0.0 && x == f * d
    ensures Share(x, d) == f
  {
    assert Share(x, d) * d == x;
    assert (Share(x, d) - f) * d == 0.0;
  }

  lemma ShareWithin(x: real, d: real)
    requires 0.0 <= x < d
    ensures 0.0 <= Share(x, d) < 1.0 && Share(x, d) * d == x
  {
    QuotientMonotone(0.0, x, d);
    QuotientMonotone(x, d, d);
    QuotientOfItself(d);
  }

  lemma BlendUp(a: real, b: real, f: real)
    requires a < b && 0.0 <= f < 1.0
    ensures var x := Blend(a, b, f); a <= x < b && (f > 0.0 ==> a < x) && (f == 0.0 ==> x == a) && Share(x - a, b - a) == f
  {
    ScaleIncreasing(f, 1.0, b - a);
    if f > 0.0 { ProductPositive(f, b - a); }
    ShareOf(f, b - a, Blend(a, b, f) - a);
  }

  lemma BlendDown(a: real, b: real, f: real)
    requires a > b && 0.0 <= f < 1.0
    ensures var x := Blend(a, b, f); b < x <= a && (f > 0.0 ==> x < a) && (f == 0.0 ==> x == a) && Share(a - x, a - b) == f
  {
    ScaleIncreasing(f, 1.0, a - b);
    if f > 0.0 { ProductPositive(f, a - b); }
    assert f * (b - a) == -(f * (a - b));
    ShareOf(f, a - b, a - Blend(a, b, f));
  }

  lemma BlendOfShareUp(a: real, b: real, x: real)
    requires a <= x < b
    ensures var f := Share(x - a, b - a); 0.0 <= f < 1.0 && Blend(a, b, f) == x
  {
    ShareWithin(x - a, b - a);
  }

  lemma BlendOfShareDown(a: real, b: real, x: real)
    requires b < x <= a
    ensures var f := Share(a - x, a - b); 0.0 <= f < 1.0 && Blend(a, b, f) == x
  {
    ShareWithin(a - x, a - b);
    var f := Share(a - x, a - b);
    assert f * (b - a) == -(f * (a - b));
  }

  lemma BlendGrows(a: real, b: real, f: real, g: real)
    requires a < b && f < g
    ensures Blend(a, b, f) < Blend(a, b, g)
  {
    ScaleIncreasing(f, g, b - a);
  }

  /** On each segment, at every fraction short of the next row, lookup and curve undo each other. */
  lemma SegmentInverts(rows: Table, k: nat, f: real)
    requires WellFormed(rows) && k + 1 < |rows| && 0.0 <= f < 1.0
    ensures Temperature(rows, ResistanceAt(rows, k, f)) == TemperatureAt(rows, k, f)
    ensures Resistance(rows, TemperatureAt(rows, k, f)) == ResistanceAt(rows, k, f)
  {
    var r, t := ResistanceAt(rows, k, f), TemperatureAt(rows, k, f);
    BlendDown(rows[k].nominal, rows[k + 1].nominal, f);
    BlendUp(rows[k].temperature, rows[k + 1].temperature, f);
    ColdRowIs(rows, r, 0, k);
    CoolerRowIs(rows, t, 0, k);
    Extremes(rows, k);
    Extremes(rows, k + 1);
  }

  lemma Extremes(rows: Table, k: nat)
    requires WellFormed(rows) && k < |rows|
    ensures rows[|rows| - 1].nominal <= rows[k].nominal <= rows[0].nominal
    ensures rows[0].temperature <= rows[k].temperature <= rows[|rows| - 1].temperature
    ensures k > 0 ==> rows[k].nominal < rows[0].nominal && rows[0].temperature < rows[k].temperature
    ensures k + 1 < |rows| ==> rows[|rows| - 1].nominal < rows[k].nominal && rows[k].temperature < rows[|rows| - 1].temperature
  {
  }

  /** Inside the table the curve undoes the lookup. */
  lemma CurveInvertsLookup(rows: Table, r: real)
    requires WellFormed(rows) && rows[|rows| - 1].nominal <= r <= rows[0].nominal
    ensures Resistance(rows, Temperature(rows, r)) == r
  {
    if rows[|rows| - 1].nominal < r < rows[0].nominal {
      var k := InsideResistance(rows, r, 0);
      BlendOfShareDown(rows[k].nominal, rows[k + 1].nominal, r);
      SegmentInverts(rows, k, Share(rows[k].nominal - r, rows[k].nominal - rows[k + 1].nominal));
    } else {
      Extremes(rows, 0);
    }
  }

  /** Inside the table the lookup undoes the curve. */
  lemma LookupInvertsCurve(rows: Table, t: real)
    requires WellFormed(rows) && rows[0].temperature <= t <= rows[|rows| - 1].temperature
    ensures Temperature(rows, Resistance(rows, t)) == t
  {
    if rows[0].temperature < t < rows[|rows| - 1].temperature {
      var k := InsideTemperature(rows, t, 0);
      BlendOfShareUp(rows[k].temperature, rows[k + 1].temperature, t);
      SegmentInverts(rows, k, Share(t - rows[k].temperature, rows[k + 1].temperature - rows[k].temperature));
    } else {
      Extremes(rows, 0);
    }
  }

  lemma {:induction false} InsideResistance(rows: Table, r: real, k: nat) returns (n: nat)
    requires WellFormed(rows) && k + 1 < |rows| && rows[|rows| - 1].nominal < r <= rows[k].nominal
    ensures k <= n && n + 1 < |rows| && rows[n].nominal >= r > rows[n + 1].nominal
    decreases |rows| - k
  {
    n := k;
    if r <= rows[k + 1].nominal { n := InsideResistance(rows, r, k + 1); }
  }

  lemma {:induction false} InsideTemperature(rows: Table, t: real, k: nat) returns (n: nat)
    requires WellFormed(rows) && k + 1 < |rows| && rows[k].temperature <= t < rows[|rows| - 1].temperature
    ensures k <= n && n + 1 < |rows| && rows[n].temperature <= t < rows[n + 1].temperature
    decreases |rows| - k
  {
    n := k;
    if rows[k + 1].temperature <= t { n := InsideTemperature(rows, t, k + 1); }
  }

  /** The lookup is exact at every row of the table. */
  lemma ExactAtRows(rows: Table, k: nat)
    requires WellFormed(rows) && k < |rows|
    ensures Temperature(rows, rows[k].nominal) == rows[k].temperature
  {
    Extremes(rows, k);
    if k + 1 < |rows| {
      BlendDown(rows[k].nominal, rows[k + 1].nominal, 0.0);
      BlendUp(rows[k].temperature, rows[k + 1].temperature, 0.0);
      SegmentInverts(rows, k, 0.0);
    }
  }

  /** The result always lies within the table's temperatures. */
  lemma LookupIsClamped(rows: Table, r: real)
    requires WellFormed(rows)
    ensures rows[0].temperature <= Temperature(rows, r) <= rows[|rows| - 1].temperature
  {
    Extremes(rows, 0);
    if rows[|rows| - 1].nominal < r < rows[0].nominal {
      var k := InsideResistance(rows, r, 0);
      LookupOnSegment(rows, r, k);
      Extremes(rows, k);
      Extremes(rows, k + 1);
    }
  }

  lemma LookupOnSegment(rows: Table, r: real, k: nat)
    requires WellFormed(rows) && k + 1 < |rows| && rows[k].nominal >= r > rows[k + 1].nominal
    ensures rows[k].temperature <= Temperature(rows, r) < rows[k + 1].temperature
    ensures Temperature(rows, r)
         == TemperatureAt(rows, k, Share(rows[k].nominal - r, rows[k].nominal - rows[k + 1].nominal))
  {
    var f := Share(rows[k].nominal - r, rows[k].nominal - rows[k + 1].nominal);
    BlendOfShareDown(rows[k].nominal, rows[k + 1].nominal, r);
    BlendUp(rows[k].temperature, rows[k + 1].temperature, f);
    SegmentInverts(rows, k, f);
  }

  /** A higher resistance never reads hotter, and inside the table always reads colder. */
  lemma LookupFalls(rows: Table, r: real, s: real)
    requires WellFormed(rows) && r < s
    ensures Temperature(rows, s) <= Temperature(rows, r)
    ensures rows[|rows| - 1].nominal <= r && s <= rows[0].nominal ==> Temperature(rows, s) < Temperature(rows, r)
  {
    LookupIsClamped(rows, r);
    LookupIsClamped(rows, s);
    if rows[|rows| - 1].nominal < r && s < rows[0].nominal {
      FallsInside(rows, r, s);
    } else if rows[|rows| - 1].nominal <= r && s <= rows[0].nominal {
      CurveInvertsLookup(rows, r);
      CurveInvertsLookup(rows, s);
    }
  }

  lemma FallsInside(rows: Table, r: real, s: real)
    requires WellFormed(rows) && rows[|rows| - 1].nominal < r < s < rows[0].nominal
    ensures Temperature(rows, s) < Temperature(rows, r)
  {
    var k := InsideResistance(rows, r, 0);
    var n := InsideResistance(rows, s, 0);
    LookupOnSegment(rows, r, k);
    LookupOnSegment(rows, s, n);
    if k == n {
      var d := rows[k].nominal - rows[k + 1].nominal;
      QuotientMonotone(rows[k].nominal - s, rows[k].nominal - r, d);
      BlendGrows(rows[k].temperature, rows[k + 1].temperature, Share(rows[k].nominal - s, d), Share(rows[k].nominal - r, d));
    } else if n < k {
      assert rows[n + 1].temperature <= rows[k].temperature;
    }
  }

  lemma OnTheSegment(rows: Table, r: real, k: nat, a: Row, b: Row)
    requires WellFormed(rows) && k + 1 < |rows| && a == rows[k] && b == rows[k + 1] && a.nominal >= r > b.nominal
    ensures (Temperature(rows, r) - a.temperature) * (a.nominal - b.nominal) == (a.nominal - r) * (b.temperature - a.temperature)
  {
    LookupOnSegment(rows, r, k);
    var d := a.nominal - b.nominal;
    assert Share(a.nominal - r, d) * d == a.nominal - r;
    Proportion(Share(a.nominal - r, d), d, b.temperature - a.temperature);
  }

  /** Between two rows the reading divides their temperatures as the resistance divides their resistances; beyond the ends it is that
      of the end. */
  lemma LookupInterpolates(rows: Table, r: real, k: nat)
    requires WellFormed(rows)
    ensures r >= rows[0].nominal ==> Temperature(rows, r) == rows[0].temperature
    ensures r <= rows[|rows| - 1].nominal ==> Temperature(rows, r) == rows[|rows| - 1].temperature
    ensures k + 1 < |rows| && rows[k].nominal >= r >= rows[k + 1].nominal ==>
      (Temperature(rows, r) - rows[k].temperature) * (rows[k].nominal - rows[k + 1].nominal)
      == (rows[k].nominal - r) * (rows[k + 1].temperature - rows[k].temperature)
  {
    BeyondTheEnds(rows, r);
    if k + 1 < |rows| && rows[k].nominal >= r > rows[k + 1].nominal {
      OnTheSegment(rows, r, k, rows[k], rows[k + 1]);
    } else if k + 1 < |rows| && r == rows[k + 1].nominal {
      ExactAtRows(rows, k + 1);
    }
  }

  lemma BeyondTheEnds(rows: Table, r: real)
    requires WellFormed(rows)
    ensures r >= rows[0].nominal ==> Temperature(rows, r) == rows[0].temperature
    ensures r <= rows[|rows| - 1].nominal ==> Temperature(rows, r) == rows[|rows| - 1].temperature
  {
    Extremes(rows, 0);
  }

  lemma Proportion(f: real, d: real, e: real)
    ensures (f * e) * d == (f * d) * e
  {
  }
}
