/** Bisection for a threshold, as both cap solvers run it: halve [lo, hi] a fixed number of times,
    keeping the lower end where the test passes, and answer the lower end. */
module Bisection {

  function Lower(passes: real -> bool, lo: real, hi: real, n: nat): real
    decreases n
  {
    if n == 0 then lo
    else
      var mid := (lo + hi) / 2.0;
      if passes(mid) then Lower(passes, mid, hi, n - 1) else Lower(passes, lo, mid, n - 1)
  }

  /** Whether any point the search tests has the property `flag`. */
  function AnyProbe(passes: real -> bool, flag: real -> bool, lo: real, hi: real, n: nat): bool
    decreases n
  {
    n != 0 &&
    var mid := (lo + hi) / 2.0;
    flag(mid) || (if passes(mid) then AnyProbe(passes, flag, mid, hi, n - 1)
                  else AnyProbe(passes, flag, lo, mid, n - 1))
  }

  /** The width of the bracket left after n halvings. */
  function Width(w: real, n: nat): real
    decreases n
  {
    if n == 0 then w else Width(w / 2.0, n - 1)
  }

  function TwoTo(n: nat): nat {
    if n == 0 then 1 else 2 * TwoTo(n - 1)
  }

  lemma {:induction false} TwoToAdds(a: nat, b: nat)
    ensures TwoTo(a + b) == TwoTo(a) * TwoTo(b)
    decreases a
  {
    if a > 0 { TwoToAdds(a - 1, b); }
  }

  lemma {:induction false} WidthIsQuotient(w: real, n: nat)
    ensures TwoTo(n) >= 1 && Width(w, n) * TwoTo(n) as real == w
    decreases n
  {
    if n > 0 {
      WidthIsQuotient(w / 2.0, n - 1);
      var q, t := Width(w / 2.0, n - 1), TwoTo(n - 1) as real;
      assert TwoTo(n) as real == 2.0 * t;
      assert q * (2.0 * t) == 2.0 * (q * t);
    }
  }

  lemma {:induction false} WidthNonNegative(w: real, n: nat)
    requires w >= 0.0
    ensures Width(w, n) >= 0.0
    decreases n
  {
    if n > 0 { WidthNonNegative(w / 2.0, n - 1); }
  }

  /** The answer stays in the bracket and, unless it never left `lo`, was itself tested. */
  lemma {:induction false} LowerInBracket(passes: real -> bool, lo: real, hi: real, n: nat)
    requires lo <= hi
    ensures lo <= Lower(passes, lo, hi, n) <= hi
    ensures Lower(passes, lo, hi, n) == lo || passes(Lower(passes, lo, hi, n))
    decreases n
  {
    if n > 0 {
      var mid := (lo + hi) / 2.0;
      if passes(mid) { LowerInBracket(passes, mid, hi, n - 1); } else { LowerInBracket(passes, lo, mid, n - 1); }
    }
  }

  ghost predicate DownwardClosed(passes: real -> bool, lo: real, hi: real) {
    forall x: real, y: real | lo <= x <= y <= hi :: passes(y) ==> passes(x)
  }

  /** No passing point lies more than the final bracket width above the answer. */
  lemma {:induction false} LowerIsClose(passes: real -> bool, lo: real, hi: real, n: nat, x: real)
    requires lo <= hi && DownwardClosed(passes, lo, hi) && !passes(hi)
    requires lo <= x <= hi && passes(x)
    ensures x <= Lower(passes, lo, hi, n) + Width(hi - lo, n)
    decreases n
  {
    if n > 0 {
      var mid := (lo + hi) / 2.0;
      assert hi - mid == (hi - lo) / 2.0 == mid - lo;
      if passes(mid) {
        if mid <= x { LowerIsClose(passes, mid, hi, n - 1, x); }
        else { LowerIsClose(passes, mid, hi, n - 1, mid); }
      } else {
        LowerIsClose(passes, lo, mid, n - 1, x);
      }
    }
  }

  /** A test that passes wherever another does never gets a smaller answer; no closure is needed. */
  lemma {:induction false} LowerDominates(strict: real -> bool, loose: real -> bool, lo: real, hi: real, n: nat)
    requires lo <= hi
    requires forall x: real | lo <= x <= hi :: strict(x) ==> loose(x)
    ensures Lower(strict, lo, hi, n) <= Lower(loose, lo, hi, n)
    decreases n
  {
    if n > 0 {
      var mid := (lo + hi) / 2.0;
      if strict(mid) {
        LowerDominates(strict, loose, mid, hi, n - 1);
      } else if loose(mid) {
        LowerInBracket(strict, lo, mid, n - 1);
        LowerInBracket(loose, mid, hi, n - 1);
      } else {
        LowerDominates(strict, loose, lo, mid, n - 1);
      }
    }
  }

  /** The answer never reaches the upper end. */
  lemma {:induction false} LowerBelowTop(passes: real -> bool, lo: real, hi: real, n: nat)
    requires lo < hi
    ensures Lower(passes, lo, hi, n) < hi
    decreases n
  {
    if n > 0 {
      var mid := (lo + hi) / 2.0;
      if passes(mid) { LowerBelowTop(passes, mid, hi, n - 1); } else { LowerBelowTop(passes, lo, mid, n - 1); }
    }
  }

  /** The upper end of the final bracket still fails. */
  lemma {:induction false} UpperEndFails(passes: real -> bool, lo: real, hi: real, n: nat)
    requires !passes(hi)
    ensures !passes(Lower(passes, lo, hi, n) + Width(hi - lo, n))
    decreases n
  {
    if n > 0 {
      var mid := (lo + hi) / 2.0;
      assert hi - mid == (hi - lo) / 2.0 == mid - lo;
      if passes(mid) { UpperEndFails(passes, mid, hi, n - 1); } else { UpperEndFails(passes, lo, mid, n - 1); }
    }
  }
}
