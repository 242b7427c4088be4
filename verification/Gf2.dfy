/** Serial CRC registers as polynomial division over GF(2).  A polynomial is a sequence of
    coefficients, leading one first; `g` holds the coefficients of the divisor below its leading one,
    so a register has |g| bits. */
module Gf2 {
  type Poly = seq<bool>

  function Zeros(n: nat): (r: Poly)
    ensures |r| == n && forall i | 0 <= i < n :: !r[i]
  {
    seq(n, i => false)
  }

  function Xor(a: Poly, b: Poly): (r: Poly)
    requires |a| == |b|
    ensures |r| == |a| && forall i | 0 <= i < |a| :: r[i] == (a[i] != b[i])
  {
    seq(|a|, i requires 0 <= i < |a| => a[i] != b[i])
  }

  ghost predicate IsZero(p: Poly) { forall i | 0 <= i < |p| :: !p[i] }

  /** One register step: multiply by x and reduce. */
  function Shift(g: Poly, p: Poly): (r: Poly)
    requires |p| == |g| > 0
    ensures |r| == |g|
    ensures forall i | 0 <= i < |g| :: r[i] == ((i + 1 < |g| && p[i + 1]) != (p[0] && g[i]))
  {
    var s := p[1..] + [false];
    if p[0] then Xor(s, g) else s
  }

  function FeedBit(g: Poly, p: Poly, t: bool): (r: Poly)
    requires |p| == |g| > 0
    ensures |r| == |g|
  {
    Shift(g, p[0 := p[0] != t])
  }

  function Feed(g: Poly, p: Poly, bits: Poly): (r: Poly)
    requires |p| == |g| > 0
    ensures |r| == |g|
    decreases |bits|
  {
    if bits == [] then p else Feed(g, FeedBit(g, p, bits[0]), bits[1..])
  }

  lemma {:induction false} FeedAppend(g: Poly, p: Poly, a: Poly, b: Poly)
    requires |p| == |g| > 0
    ensures Feed(g, p, a + b) == Feed(g, Feed(g, p, a), b)
    decreases |a|
  {
    if a == [] {
      assert a + b == b;
    } else {
      assert (a + b)[1..] == a[1..] + b;
      FeedAppend(g, FeedBit(g, p, a[0]), a[1..], b);
    }
  }

  lemma FeedBitLinear(g: Poly, p: Poly, q: Poly, s: bool, t: bool)
    requires |p| == |q| == |g| > 0
    ensures FeedBit(g, Xor(p, q), s != t) == Xor(FeedBit(g, p, s), FeedBit(g, q, t))
  {
  }

  /** The register is linear in its start and its input together. */
  lemma {:induction false} FeedLinear(g: Poly, p: Poly, q: Poly, a: Poly, b: Poly)
    requires |p| == |q| == |g| > 0 && |a| == |b|
    ensures Feed(g, Xor(p, q), Xor(a, b)) == Xor(Feed(g, p, a), Feed(g, q, b))
    decreases |a|
  {
    if a != [] {
      FeedBitLinear(g, p, q, a[0], b[0]);
      assert Xor(a, b)[1..] == Xor(a[1..], b[1..]);
      FeedLinear(g, FeedBit(g, p, a[0]), FeedBit(g, q, b[0]), a[1..], b[1..]);
    }
  }

  /** Shifting loses nothing when the divisor has a constant term. */
  lemma ShiftZero(g: Poly, p: Poly)
    requires |p| == |g| > 0 && g[|g| - 1]
    ensures IsZero(Shift(g, p)) <==> IsZero(p)
  {
    var r := Shift(g, p);
    if IsZero(r) {
      assert !r[|g| - 1];
      assert !p[0];
      forall i | 0 < i < |p| ensures !p[i] { assert r[i - 1] == p[i]; }
    }
  }

  lemma {:induction false} FeedZeros(g: Poly, p: Poly, n: nat)
    requires |p| == |g| > 0 && g[|g| - 1]
    ensures IsZero(Feed(g, p, Zeros(n))) <==> IsZero(p)
    decreases n
  {
    if n > 0 {
      assert Zeros(n)[1..] == Zeros(n - 1);
      assert p[0 := p[0] != false] == p;
      ShiftZero(g, p);
      FeedZeros(g, Shift(g, p), n - 1);
    }
  }

  function Pad(bits: Poly, n: nat): (r: Poly)
    requires |bits| <= n
    ensures |r| == n
  {
    bits + Zeros(n - |bits|)
  }

  lemma LateXor(g: Poly, p: Poly, b: Poly)
    requires |p| == |b| == |g| > 0
    ensures Shift(g, Xor(p, b)) == Xor(FeedBit(g, p, b[0]), b[1..] + [false])
  {
  }

  /** Feeding up to |g| bits one by one is adding them to the register at once and shifting: the
      byte-wise form both sources use. */
  lemma {:induction false} FeedAtOnce(g: Poly, p: Poly, bits: Poly)
    requires |p| == |g| > 0 && |bits| <= |g|
    ensures Feed(g, p, bits) == Feed(g, Xor(p, Pad(bits, |g|)), Zeros(|bits|))
    decreases |bits|
  {
    var n := |bits|;
    if n == 0 {
      assert Xor(p, Pad(bits, |g|)) == p;
      assert Zeros(0) == bits;
    } else {
      var all, b := Xor(p, Pad(bits, |g|)), Pad(bits, |g|);
      LateXor(g, p, b);
      assert b[1..] + [false] == Pad(bits[1..], |g|);
      assert Zeros(n)[1..] == Zeros(n - 1);
      assert all[0 := all[0] != false] == all;
      FeedAtOnce(g, FeedBit(g, p, bits[0]), bits[1..]);
    }
  }

  lemma SameIffClear(p: Poly, q: Poly)
    requires |p| == |q|
    ensures p == q <==> IsZero(Xor(p, q))
  {
    if IsZero(Xor(p, q)) {
      forall i | 0 <= i < |p| ensures p[i] == q[i] { assert !Xor(p, q)[i]; }
    }
  }

  /** Two registers agree exactly when the register of their difference is clear. */
  lemma SameRegister(g: Poly, p: Poly, q: Poly, a: Poly, b: Poly)
    requires |p| == |q| == |g| > 0 && |a| == |b|
    ensures Feed(g, p, a) == Feed(g, q, b) <==> IsZero(Feed(g, Xor(p, q), Xor(a, b)))
  {
    FeedLinear(g, p, q, a, b);
    SameIffClear(Feed(g, p, a), Feed(g, q, b));
  }

  lemma XorSelf(p: Poly)
    ensures Xor(p, p) == Zeros(|p|)
  {
  }

  // ----- detection -----

  /** All errors lie within |g| consecutive positions starting at i, and there is at least one. */
  ghost predicate Burst(e: Poly, w: nat, i: nat) {
    && !IsZero(e) && i + w <= |e|
    && forall k | 0 <= k < |e| && e[k] :: i <= k < i + w
  }

  /** A burst no longer than the register always leaves it non-zero. */
  lemma BurstDetected(g: Poly, e: Poly, i: nat)
    requires |g| > 0 && g[|g| - 1] && Burst(e, |g|, i)
    ensures !IsZero(Feed(g, Zeros(|g|), e))
  {
    var w, j := |g|, i + |g|;
    var window := e[i..j];
    assert e == Zeros(i) + (window + Zeros(|e| - j));
    FeedAppend(g, Zeros(w), Zeros(i), window + Zeros(|e| - j));
    FeedZeros(g, Zeros(w), i);
    assert Feed(g, Zeros(w), Zeros(i)) == Zeros(w);
    FeedAppend(g, Zeros(w), window, Zeros(|e| - j));
    FeedAtOnce(g, Zeros(w), window);
    assert Xor(Zeros(w), Pad(window, w)) == window;
    assert !IsZero(window) by {
      var k :| 0 <= k < |e| && e[k];
      assert window[k - i];
    }
    FeedZeros(g, window, w);
    FeedZeros(g, Feed(g, Zeros(w), window), |e| - j);
  }

  lemma PadZero(e: Poly, n: nat)
    requires |e| <= n
    ensures IsZero(Pad(e, n)) <==> IsZero(e)
  {
    if IsZero(Pad(e, n)) { forall i | 0 <= i < |e| ensures !e[i] { assert Pad(e, n)[i] == e[i]; } }
  }

  /** An error no longer than the register is seen even when nothing follows it. */
  lemma ShortErrorDetected(g: Poly, e: Poly)
    requires |g| > 0 && g[|g| - 1] && |e| <= |g|
    ensures IsZero(Feed(g, Zeros(|g|), e)) <==> IsZero(e)
  {
    var p := Pad(e, |g|);
    FeedAtOnce(g, Zeros(|g|), e);
    assert Xor(Zeros(|g|), p) == p;
    FeedZeros(g, p, |e|);
    PadZero(e, |g|);
  }

  function Unit(n: nat): (r: Poly)
    requires n > 0
    ensures |r| == n
  {
    [true] + Zeros(n - 1)
  }

  /** A one followed by zeros is the unit register shifted. */
  lemma {:induction false} FeedOne(g: Poly, n: nat)
    requires |g| > 0
    ensures Feed(g, Zeros(|g|), Unit(n + 1)) == Feed(g, Unit(|g|), Zeros(n + 1))
  {
    SameFirstStep(g);
    FeedHead(g, Zeros(|g|), true, Zeros(n));
    FeedHead(g, Unit(|g|), false, Zeros(n));
    assert Zeros(n + 1) == [false] + Zeros(n);
  }

  lemma SameFirstStep(g: Poly)
    requires |g| > 0
    ensures FeedBit(g, Zeros(|g|), true) == FeedBit(g, Unit(|g|), false)
  {
    assert Zeros(|g|)[0 := true] == Unit(|g|);
  }

  lemma {:induction false} FeedHead(g: Poly, p: Poly, t: bool, bits: Poly)
    requires |p| == |g| > 0
    ensures Feed(g, p, [t] + bits) == Feed(g, FeedBit(g, p, t), bits)
  {
    assert ([t] + bits)[1..] == bits;
  }

  lemma FlipUnit(p: Poly)
    requires p != [] && IsZero(p[0 := !p[0]])
    ensures p == Unit(|p|)
  {
    var f := p[0 := !p[0]];
    assert !f[0];
    forall k | 0 < k < |p| ensures !p[k] { assert f[k] == p[k]; }
  }

  /** A set bit fed to a register other than the unit leaves it non-zero for good. */
  lemma SecondError(g: Poly, mid: Poly, rest: nat)
    requires |g| == |mid| > 0 && g[|g| - 1] && mid != Unit(|g|)
    ensures !IsZero(Feed(g, mid, Unit(rest + 1)))
  {
    var flipped := mid[0 := !mid[0]];
    if IsZero(flipped) { FlipUnit(mid); assert false; }
    ShiftZero(g, flipped);
    FeedHead(g, mid, true, Zeros(rest));
    FeedZeros(g, Shift(g, flipped), rest);
  }

  lemma ClearStaysClear(g: Poly, n: nat)
    requires |g| > 0 && g[|g| - 1]
    ensures Feed(g, Zeros(|g|), Zeros(n)) == Zeros(|g|)
  {
    FeedZeros(g, Zeros(|g|), n);
  }

  /** Two errors d apart go unnoticed only if x^d is congruent to 1. */
  lemma PairDetected(g: Poly, i: nat, d: nat, rest: nat)
    requires |g| > 0 && g[|g| - 1] && d > 0
    requires Feed(g, Unit(|g|), Zeros(d)) != Unit(|g|)
    ensures !IsZero(Feed(g, Zeros(|g|), Zeros(i) + (Unit(d) + Unit(rest + 1))))
  {
    FeedAppend(g, Zeros(|g|), Zeros(i), Unit(d) + Unit(rest + 1));
    ClearStaysClear(g, i);
    FeedAppend(g, Zeros(|g|), Unit(d), Unit(rest + 1));
    FeedOne(g, d - 1);
    SecondError(g, Feed(g, Zeros(|g|), Unit(d)), rest);
  }

  /** The error pattern with exactly the positions i and j set. */
  lemma PairPattern(e: Poly, i: nat, j: nat)
    requires i < j < |e|
    requires forall k | 0 <= k < |e| :: e[k] <==> (k == i || k == j)
    ensures e == Zeros(i) + (Unit(j - i) + Unit(|e| - j))
  {
  }

  // ----- the register is the remainder -----

  /** The product of two polynomials, by Horner's rule on the first. */
  function Mul(a: Poly, b: Poly): (r: Poly)
    requires b != []
    ensures |r| == |a| + |b| - 1
    decreases |a|
  {
    if a == [] then Zeros(|b| - 1)
    else
      var n := |a| - 1;
      Xor(Mul(a[..n], b) + [false], Zeros(n) + (if a[n] then b else Zeros(|b|)))
  }

  /** The sum of the products a[i] * b[k - i] for the first n coefficients of a. */
  function Convolution(a: Poly, b: Poly, k: nat, n: nat): bool
    requires n <= |a|
    decreases n
  {
    n > 0 && (Convolution(a, b, k, n - 1) != (n - 1 <= k < n - 1 + |b| && a[n - 1] && b[k - (n - 1)]))
  }

  lemma {:induction false} ConvolutionOfPrefix(a: Poly, b: Poly, k: nat, m: nat, n: nat)
    requires n <= m <= |a|
    ensures Convolution(a[..m], b, k, n) == Convolution(a, b, k, n)
    decreases n
  {
    if n > 0 { ConvolutionOfPrefix(a, b, k, m, n - 1); }
  }

  lemma {:induction false} ConvolutionBeyond(a: Poly, b: Poly, k: nat, n: nat)
    requires n <= |a| && k + 1 >= n + |b|
    ensures !Convolution(a, b, k, n)
    decreases n
  {
    if n > 0 { ConvolutionBeyond(a, b, k, n - 1); }
  }

  /** The product is the usual one: each coefficient sums the products of the coefficients whose places add up to it. */
  lemma {:induction false} MulIsConvolution(a: Poly, b: Poly, k: nat)
    requires b != [] && k < |a| + |b| - 1
    ensures Mul(a, b)[k] == Convolution(a, b, k, |a|)
    decreases |a|
  {
    if a != [] {
      var n := |a| - 1;
      ConvolutionOfPrefix(a, b, k, n, n);
      if k < n + |b| - 1 {
        MulIsConvolution(a[..n], b, k);
      } else {
        ConvolutionBeyond(a, b, k, n);
      }
    }
  }

  /** The message shifted up |g| places, with the start of the register added at its top. */
  function Dividend(g: Poly, s: Poly, m: Poly): (r: Poly)
    requires |s| == |g|
    ensures |r| == |m| + |g|
  {
    Xor(m + Zeros(|g|), s + Zeros(|m|))
  }

  /** a(x) = q(x) * divisor(x) + r(x) with r of lower degree than the divisor. */
  ghost predicate Divides(g: Poly, a: Poly, q: Poly, r: Poly)
    requires |r| == |g|
  {
    |q| + |g| == |a| && a == Xor(Mul(q, [true] + g), Zeros(|q|) + r)
  }

  ghost predicate IsRemainder(g: Poly, a: Poly, r: Poly)
    requires |r| == |g|
  {
    exists q: Poly :: Divides(g, a, q, r)
  }

  lemma DividendGrows(g: Poly, s: Poly, m: Poly, t: bool)
    requires |s| == |g| > 0
    ensures Dividend(g, s, m + [t]) == Xor(Dividend(g, s, m) + [false], Zeros(|m|) + [t] + Zeros(|g|))
  {
  }

  /** What the new quotient bit subtracts and the new remainder adds, past the first n places. */
  lemma RemainderMoves(g: Poly, r: Poly, t: bool, n: nat)
    requires |r| == |g| > 0
    ensures var top := r[0] != t;
      Xor(Zeros(n) + (if top then [true] + g else Zeros(|g| + 1)), Zeros(n + 1) + FeedBit(g, r, t)) ==
      Xor(Zeros(n) + r + [false], Zeros(n) + [t] + Zeros(|g|))
  {
  }

  lemma XorSwap(p: Poly, low: Poly, next: Poly, r: Poly, t: Poly)
    requires |p| == |low| == |next| == |r| == |t| && Xor(low, next) == Xor(r, t)
    ensures Xor(Xor(p, low), next) == Xor(Xor(p, r), t)
  {
    forall i | 0 <= i < |p| ensures Xor(Xor(p, low), next)[i] == Xor(Xor(p, r), t)[i] {
      assert Xor(low, next)[i] == Xor(r, t)[i];
    }
  }

  lemma DivideStep(g: Poly, s: Poly, m: Poly, q: Poly, r: Poly, t: bool)
    requires |r| == |s| == |g| > 0 && Divides(g, Dividend(g, s, m), q, r)
    ensures Divides(g, Dividend(g, s, m + [t]), q + [r[0] != t], FeedBit(g, r, t))
  {
    var n, d, top := |m|, [true] + g, r[0] != t;
    assert (q + [top])[..n] == q;
    DividendGrows(g, s, m, t);
    RemainderMoves(g, r, t, n);
    var low := Zeros(n) + (if top then d else Zeros(|d|));
    assert Mul(q + [top], d) == Xor(Mul(q, d) + [false], low);
    assert Xor(Mul(q, d), Zeros(n) + r) + [false] == Xor(Mul(q, d) + [false], Zeros(n) + r + [false]);
    XorSwap(Mul(q, d) + [false], low, Zeros(n + 1) + FeedBit(g, r, t), Zeros(n) + r + [false],
            Zeros(n) + [t] + Zeros(|g|));
  }

  lemma {:induction false} FeedSnoc(g: Poly, p: Poly, bits: Poly)
    requires |p| == |g| > 0 && bits != []
    ensures Feed(g, p, bits) == FeedBit(g, Feed(g, p, bits[..|bits| - 1]), bits[|bits| - 1])
  {
    var n := |bits| - 1;
    assert bits == bits[..n] + [bits[n]];
    FeedAppend(g, p, bits[..n], [bits[n]]);
    assert [bits[n]][1..] == [];
  }

  lemma {:induction false} FeedDivides(g: Poly, s: Poly, m: Poly) returns (q: Poly)
    requires |s| == |g| > 0
    ensures Divides(g, Dividend(g, s, m), q, Feed(g, s, m))
    decreases |m|
  {
    if m == [] {
      q := [];
      assert Divides(g, Dividend(g, s, m), q, s);
    } else {
      var n := |m| - 1;
      FeedSnoc(g, s, m);
      var r := Feed(g, s, m[..n]);
      q := FeedDivides(g, s, m[..n]);
      DivideStep(g, s, m[..n], q, r, m[n]);
      assert m[..n] + [m[n]] == m;
      q := q + [r[0] != m[n]];
    }
  }

  lemma {:induction false} MulLinear(a: Poly, b: Poly, d: Poly)
    requires |a| == |b| && d != []
    ensures Mul(Xor(a, b), d) == Xor(Mul(a, d), Mul(b, d))
    decreases |a|
  {
    if a != [] {
      var n := |a| - 1;
      assert Xor(a, b)[..n] == Xor(a[..n], b[..n]);
      MulLinear(a[..n], b[..n], d);
    }
  }

  /** A multiple of a monic divisor with no high part is zero. */
  lemma {:induction false} LowMultipleIsZero(q: Poly, d: Poly)
    requires d != [] && d[0]
    requires forall i | 0 <= i < |q| :: !Mul(q, d)[i]
    ensures IsZero(q) && IsZero(Mul(q, d))
    decreases |q|
  {
    if q != [] {
      var n := |q| - 1;
      var p, low := Mul(q[..n], d), Zeros(n) + (if q[n] then d else Zeros(|d|));
      assert Mul(q, d) == Xor(p + [false], low);
      forall i | 0 <= i < n ensures !p[i] { assert !Mul(q, d)[i] && !low[i]; }
      LowMultipleIsZero(q[..n], d);
      assert !Mul(q, d)[n] && low[n] == q[n];
      assert !(p + [false])[n];
      assert low == Zeros(|low|);
    }
  }

  lemma RemainderUnique(g: Poly, a: Poly, q: Poly, r: Poly, q': Poly, r': Poly)
    requires |r| == |r'| == |g| > 0 && Divides(g, a, q, r) && Divides(g, a, q', r')
    ensures r == r'
  {
    var d, n := [true] + g, |q|;
    var x := Xor(q, q');
    MulLinear(q, q', d);
    var b, c := Zeros(n) + r, Zeros(n) + r';
    forall i | 0 <= i < n + |g| ensures Mul(x, d)[i] == (b[i] != c[i]) {
      assert a[i] == (Mul(q, d)[i] != b[i]);
      assert a[i] == (Mul(q', d)[i] != c[i]);
    }
    forall i | 0 <= i < n ensures !Mul(x, d)[i] { assert !b[i] && !c[i]; }
    LowMultipleIsZero(x, d);
    forall i | 0 <= i < |g| ensures r[i] == r'[i] { assert b[n + i] == r[i] && c[n + i] == r'[i]; }
  }

  /** From any start, feeding a message computes the remainder of the dividend, and nothing else does. */
  lemma RegisterIsRemainder(g: Poly, s: Poly, m: Poly, r: Poly)
    requires |r| == |s| == |g| > 0
    ensures r == Feed(g, s, m) <==> IsRemainder(g, Dividend(g, s, m), r)
  {
    var q := FeedDivides(g, s, m);
    if IsRemainder(g, Dividend(g, s, m), r) {
      var q' :| Divides(g, Dividend(g, s, m), q', r);
      RemainderUnique(g, Dividend(g, s, m), q, Feed(g, s, m), q', r);
    }
  }

  // ----- multiples -----

  ghost predicate IsQuotient(g: Poly, a: Poly, q: Poly) {
    |q| + |g| == |a| && a == Mul(q, [true] + g)
  }

  ghost predicate IsProduct(g: Poly, a: Poly) {
    exists q: Poly :: IsQuotient(g, a, q)
  }

  /** e(x) is a multiple of the divisor; the zeros leave room for the degree of the product. */
  ghost predicate IsMultiple(g: Poly, e: Poly) {
    IsProduct(g, Zeros(|g|) + e)
  }

  lemma {:induction false} MulShiftedDown(q: Poly, d: Poly)
    requires d != []
    ensures Mul([false] + q, d) == [false] + Mul(q, d)
    decreases |q|
  {
    if q == [] {
      assert ([false] + q)[..0] == [];
    } else {
      var n := |q| - 1;
      var low := if q[n] then d else Zeros(|d|);
      assert ([false] + q)[..n + 1] == [false] + q[..n];
      MulShiftedDown(q[..n], d);
      XorShiftedDown(Mul(q[..n], d), low, n);
    }
  }

  lemma XorShiftedDown(p: Poly, low: Poly, n: nat)
    requires |p| + 1 == n + |low|
    ensures Xor([false] + p + [false], Zeros(n + 1) + low) == [false] + Xor(p + [false], Zeros(n) + low)
  {
    var a, b := Xor([false] + p + [false], Zeros(n + 1) + low), [false] + Xor(p + [false], Zeros(n) + low);
    forall i | 0 <= i < |a| ensures a[i] == b[i] {
      if i > 0 { assert ([false] + p + [false])[i] == (p + [false])[i - 1] && (Zeros(n + 1) + low)[i] == (Zeros(n) + low)[i - 1]; }
    }
  }

  lemma {:induction false} MulFirst(q: Poly, d: Poly)
    requires d != [] && q != []
    ensures Mul(q, d)[0] == (q[0] && d[0])
    decreases |q|
  {
    var n := |q| - 1;
    if n > 0 { MulFirst(q[..n], d); }
  }

  /** A product whose last coefficient is zero stays a product when turned right, as the divisor's is one. */
  lemma TurnRight(g: Poly, a: Poly)
    requires |g| > 0 && g[|g| - 1] && IsProduct(g, a + [false])
    ensures IsProduct(g, [false] + a)
  {
    var q: Poly :| IsQuotient(g, a + [false], q);
    var d, n := [true] + g, |q| - 1;
    if q == [] {
      ZerosTurn(a, |g|);
    } else {
      var p, low := q[..n], Zeros(n) + (if q[n] then d else Zeros(|d|));
      assert Mul(q, d) == Xor(Mul(p, d) + [false], low);
      assert low[n + |g|] == q[n];
      assert !(a + [false])[n + |g|];
      assert low == Zeros(|low|);
      assert a + [false] == Mul(p, d) + [false];
      assert (a + [false])[..|a|] == a && (Mul(p, d) + [false])[..|a|] == Mul(p, d);
      MulShiftedDown(p, d);
      assert IsQuotient(g, [false] + a, [false] + p);
    }
  }

  lemma ZerosTurn(a: Poly, n: nat)
    requires a + [false] == Zeros(n) || [false] + a == Zeros(n)
    ensures a + [false] == [false] + a == Zeros(n)
  {
    forall i | 0 <= i < |a| ensures !a[i] {
      assert (a + [false])[i] == a[i] && ([false] + a)[i + 1] == a[i];
    }
  }

  lemma TurnLeft(g: Poly, a: Poly)
    requires |g| > 0 && IsProduct(g, [false] + a)
    ensures IsProduct(g, a + [false])
  {
    var q: Poly :| IsQuotient(g, [false] + a, q);
    var d := [true] + g;
    if q == [] {
      ZerosTurn(a, |g|);
      assert IsQuotient(g, a + [false], q);
    } else {
      var p := q[1..];
      MulFirst(q, d);
      assert q == [false] + p;
      MulShiftedDown(p, d);
      assert ([false] + a)[1..] == a && ([false] + Mul(p, d))[1..] == Mul(p, d);
      assert (p + [false])[..|p|] == p;
      assert a + [false] == Mul(p + [false], d);
      assert IsQuotient(g, a + [false], p + [false]);
    }
  }

  lemma {:induction false} TurnZeros(g: Poly, e: Poly, i: nat, j: nat)
    requires |g| > 0 && g[|g| - 1]
    ensures IsProduct(g, Zeros(i) + e + Zeros(j)) <==> IsProduct(g, Zeros(i + j) + e)
    decreases j
  {
    if j == 0 {
      assert Zeros(i) + e + Zeros(j) == Zeros(i + j) + e;
    } else {
      var a := Zeros(i) + e + Zeros(j - 1);
      assert Zeros(i) + e + Zeros(j) == a + [false];
      assert Zeros(i + 1) + e + Zeros(j - 1) == [false] + a;
      TurnZeros(g, e, i + 1, j - 1);
      if IsProduct(g, a + [false]) { TurnRight(g, a); }
      if IsProduct(g, [false] + a) { TurnLeft(g, a); }
    }
  }

  lemma CleanDivision(g: Poly, a: Poly)
    requires |g| > 0
    ensures IsRemainder(g, a, Zeros(|g|)) <==> IsProduct(g, a)
  {
    var z := Zeros(|g|);
    forall q: Poly | |q| + |g| == |a| ensures Divides(g, a, q, z) <==> IsQuotient(g, a, q) {
      assert Xor(Mul(q, [true] + g), Zeros(|q|) + z) == Mul(q, [true] + g);
    }
    if IsRemainder(g, a, z) { var q: Poly :| Divides(g, a, q, z); assert IsQuotient(g, a, q); }
    if IsProduct(g, a) { var q: Poly :| IsQuotient(g, a, q); assert Divides(g, a, q, z); }
  }

  /** A clear register is clear after a message exactly when the message is a multiple of the divisor. */
  lemma ClearIffMultiple(g: Poly, e: Poly)
    requires |g| > 0 && g[|g| - 1]
    ensures IsZero(Feed(g, Zeros(|g|), e)) <==> IsMultiple(g, e)
  {
    var z := Zeros(|g|);
    RegisterIsRemainder(g, z, e, z);
    assert IsZero(Feed(g, z, e)) <==> Feed(g, z, e) == z;
    assert Dividend(g, z, e) == Zeros(0) + e + z;
    CleanDivision(g, Zeros(0) + e + z);
    TurnZeros(g, e, 0, |g|);
  }
}
