/**
 The cubic spline of the adaptive despiker over exact reals: a tridiagonal solver
 for the second derivatives at the knots, and evaluation by bisection.
 */
module Spline {

  /** Slopes above this ask for a natural boundary. */
  const NATURAL: real := 990000000000000000000000000000.0

  ghost predicate Increasing(x: seq<real>) {
    forall i, j :: 0 <= i < j < |x| ==> x[i] < x[j]
  }

  // ------------------------------------------------------------- what a spline is

  /** The slope of the chord of an interval of width `h`. */
  function Slope(h: real, y0: real, y1: real): real
    requires h != 0.0
  {
    (y1 - y0) / h
  }

  /** First derivative at the left end of a piece with second derivatives `m0` and `m1` at its ends. */
  function DerivStart(h: real, y0: real, y1: real, m0: real, m1: real): real
    requires h != 0.0
  {
    Slope(h, y0, y1) - h * (2.0 * m0 + m1) / 6.0
  }

  /** First derivative at the right end. */
  function DerivEnd(h: real, y0: real, y1: real, m0: real, m1: real): real
    requires h != 0.0
  {
    Slope(h, y0, y1) + h * (m0 + 2.0 * m1) / 6.0
  }

  ghost predicate Knots(x: seq<real>, y: seq<real>) {
    |x| == |y| && |x| >= 2 && Increasing(x)
  }

  /** At an interior knot the slopes of the two pieces that meet there are the same. */
  ghost predicate Smooth(x: seq<real>, y: seq<real>, m: seq<real>, i: nat)
    requires Knots(x, y) && |m| == |x| && 1 <= i < |x| - 1
  {
    DerivEnd(x[i] - x[i - 1], y[i - 1], y[i], m[i - 1], m[i]) == DerivStart(x[i + 1] - x[i], y[i], y[i + 1], m[i], m[i + 1])
  }

  ghost predicate LeftOk(x: seq<real>, y: seq<real>, m: seq<real>, yp1: real)
    requires Knots(x, y) && |m| == |x|
  {
    if yp1 > NATURAL then m[0] == 0.0 else DerivStart(x[1] - x[0], y[0], y[1], m[0], m[1]) == yp1
  }

  ghost predicate RightOk(x: seq<real>, y: seq<real>, m: seq<real>, ypn: real)
    requires Knots(x, y) && |m| == |x|
  {
    var n := |x|;
    if ypn > NATURAL then m[n - 1] == 0.0
    else DerivEnd(x[n - 1] - x[n - 2], y[n - 2], y[n - 1], m[n - 2], m[n - 1]) == ypn
  }

  /** `m` holds the second derivatives at the knots of the interpolating spline with the given boundary conditions. */
  ghost predicate IsSpline(x: seq<real>, y: seq<real>, m: seq<real>, yp1: real, ypn: real)
    requires Knots(x, y)
  {
    |m| == |x| && LeftOk(x, y, m, yp1) && RightOk(x, y, m, ypn) &&
    forall i :: 1 <= i < |x| - 1 ==> Smooth(x, y, m, i)
  }

  // --------------------------------------------------------------------- the solver

  lemma {:induction false} DivTimes(a: real, p: real)
    requires p != 0.0
    ensures (a / p) * p == a
  {
  }

  /** The quantities of one elimination step: `sig`, and the right-hand side of the row. */
  function Sig(x: seq<real>, i: nat): real
    requires 1 <= i < |x| - 1 && x[i + 1] != x[i - 1]
  {
    (x[i] - x[i - 1]) / (x[i + 1] - x[i - 1])
  }

  function Rhs(x: seq<real>, y: seq<real>, i: nat): real
    requires |y| == |x| && 1 <= i < |x| - 1 && x[i + 1] != x[i - 1] && x[i + 1] != x[i] && x[i] != x[i - 1]
  {
    6.0 * (Slope(x[i + 1] - x[i], y[i], y[i + 1]) - Slope(x[i] - x[i - 1], y[i - 1], y[i])) / (x[i + 1] - x[i - 1])
  }

  lemma {:induction false} SigInRange(a: real, b: real)
    requires a > 0.0 && b > 0.0
    ensures 0.0 < a / (a + b) < 1.0
  {
    DivTimes(a, a + b);
    var s := a / (a + b);
    if s <= 0.0 { NonPositive(s, a + b); }
    if s >= 1.0 { NonPositive(1.0 - s, a + b); }
  }

  lemma {:induction false} NonPositive(s: real, p: real)
    requires s <= 0.0 && p > 0.0
    ensures s * p <= 0.0
  {
  }

  /** A decomposed row: what the elimination makes of the factors `f1` and `u1` from those of the row before. */
  ghost predicate RowEq(sig: real, rhs: real, f0: real, f1: real, u0: real, u1: real) {
    f1 * (sig * f0 + 2.0) == sig - 1.0 && u1 * (sig * f0 + 2.0) == rhs - sig * u0
  }

  ghost predicate Row(x: seq<real>, y: seq<real>, f: seq<real>, u: seq<real>, i: nat)
    requires Knots(x, y) && 1 <= i < |x| - 1 && i < |f| && i < |u|
  {
    RowEq(Sig(x, i), Rhs(x, y, i), f[i - 1], f[i], u[i - 1], u[i])
  }

  /** The factors of the first row. */
  ghost predicate FirstRow(h: real, y0: real, y1: real, yp1: real, f: real, u: real)
    requires h != 0.0
  {
    if yp1 > NATURAL then f == 0.0 && u == 0.0 else f == -0.5 && u == (3.0 / h) * (Slope(h, y0, y1) - yp1)
  }

  /** The value in the last row. */
  ghost predicate LastRow(h: real, y0: real, y1: real, ypn: real, f: real, u: real, m: real)
    requires h != 0.0
  {
    if ypn > NATURAL then m == 0.0 else m * (0.5 * f + 1.0) == (3.0 / h) * (ypn - Slope(h, y0, y1)) - 0.5 * u
  }

  /** One step of back-substitution. */
  ghost predicate SubEq(f: real, u: real, m0: real, m1: real) { m0 == f * m1 + u }

  /** Every factor lies in (-1, 0], so no divisor of the elimination vanishes. */
  lemma {:induction false} FactorInRange(sig: real, f0: real)
    requires 0.0 < sig < 1.0 && -1.0 < f0 <= 0.0
    ensures sig * f0 + 2.0 > 1.0
    ensures -1.0 < (sig - 1.0) / (sig * f0 + 2.0) <= 0.0
  {
    assert sig * f0 > -1.0 by {
      NonPositive(sig - 1.0, f0 + 1.0);
      assert (sig - 1.0) * (f0 + 1.0) == sig * f0 + sig - f0 - 1.0;
      NonPositive(-sig, f0 + 1.0);
      assert -sig * (f0 + 1.0) == -(sig * f0) - sig;
    }
    var p := sig * f0 + 2.0;
    var f := (sig - 1.0) / p;
    DivTimes(sig - 1.0, p);
    if f > 0.0 { NonPositive(-f, p); }
    if f <= -1.0 {
      NonPositive(f + 1.0, p);
      assert (f + 1.0) * p == f * p + p;
    }
  }

  /** Back-substitution into a decomposed row gives back the row of the tridiagonal system. */
  lemma {:induction false} RowSolved(sig: real, rhs: real, f0: real, f1: real, u0: real, u1: real, m0: real, m1: real, m2: real)
    requires f1 * (sig * f0 + 2.0) == sig - 1.0 && u1 * (sig * f0 + 2.0) == rhs - sig * u0
    requires m0 == f0 * m1 + u0 && m1 == f1 * m2 + u1
    ensures sig * m0 + 2.0 * m1 + (1.0 - sig) * m2 == rhs
  {
    var p := sig * f0 + 2.0;
    assert p * m1 == (f1 * p) * m2 + u1 * p;
    assert p * m1 == sig * (f0 * m1) + 2.0 * m1;
    assert sig * (f0 * m1) == sig * m0 - sig * u0;
  }

  /** The row of the system is the condition that the slopes agree at the knot. */
  lemma {:induction false} RowIsSmooth(a: real, b: real, y0: real, y1: real, y2: real, m0: real, m1: real, m2: real)
    requires a > 0.0 && b > 0.0
    ensures DerivEnd(a, y0, y1, m0, m1) == DerivStart(b, y1, y2, m1, m2) <==>
            (a / (a + b)) * m0 + 2.0 * m1 + (1.0 - a / (a + b)) * m2 == 6.0 * (Slope(b, y1, y2) - Slope(a, y0, y1)) / (a + b)
  {
    var s := a + b;
    var sig := a / s;
    var left := sig * m0 + 2.0 * m1 + (1.0 - sig) * m2;
    var right := 6.0 * (Slope(b, y1, y2) - Slope(a, y0, y1)) / s;
    DivTimes(a, s);
    DivTimes(6.0 * (Slope(b, y1, y2) - Slope(a, y0, y1)), s);
    assert left * s == (sig * s) * m0 + 2.0 * m1 * s + (s - sig * s) * m2;
    assert left * s == a * m0 + 2.0 * m1 * s + b * m2;
    assert DerivEnd(a, y0, y1, m0, m1) - DerivStart(b, y1, y2, m1, m2)
        == Slope(a, y0, y1) - Slope(b, y1, y2) + (a * m0 + 2.0 * m1 * s + b * m2) / 6.0 by {
      assert a * (m0 + 2.0 * m1) + b * (2.0 * m1 + m2) == a * m0 + 2.0 * m1 * s + b * m2;
    }
    CancelFactor(left, right, s);
  }

  lemma {:induction false} CancelFactor(a: real, b: real, s: real)
    requires s > 0.0
    ensures a == b <==> a * s == b * s
  {
    if a < b { assert (b - a) * s > 0.0; }
    if a > b { assert (a - b) * s > 0.0; }
  }

  /** The first row, for a prescribed slope at the left end. */
  lemma {:induction false} LeftSolved(h: real, y0: real, y1: real, yp1: real, m0: real, m1: real)
    requires h > 0.0 && m0 == -0.5 * m1 + (3.0 / h) * (Slope(h, y0, y1) - yp1)
    ensures DerivStart(h, y0, y1, m0, m1) == yp1
  {
    DivTimes(3.0, h);
    var g := Slope(h, y0, y1) - yp1;
    assert h * (2.0 * m0 + m1) == 2.0 * ((3.0 / h) * h) * g;
  }

  /** The last row, for a prescribed slope at the right end. */
  lemma {:induction false} RightSolved(h: real, y0: real, y1: real, ypn: real, f: real, u: real, m0: real, m1: real)
    requires h > 0.0 && m0 == f * m1 + u
    requires m1 * (0.5 * f + 1.0) == (3.0 / h) * (ypn - Slope(h, y0, y1)) - 0.5 * u
    ensures DerivEnd(h, y0, y1, m0, m1) == ypn
  {
    DivTimes(3.0, h);
    var g := ypn - Slope(h, y0, y1);
    assert m1 * (0.5 * f + 1.0) == 0.5 * (f * m1) + m1;
    assert h * (m0 + 2.0 * m1) == 2.0 * ((3.0 / h) * h) * g;
  }

  /** The decomposition of the first `k` rows. Every factor lies in (-1, 0]. */
  ghost predicate Decomposed(x: seq<real>, y: seq<real>, yp1: real, f: seq<real>, u: seq<real>, k: nat)
    requires Knots(x, y) && 1 <= k <= |x| - 1 && |f| >= k && |u| >= k
  {
    && (forall i :: 0 <= i < k ==> -1.0 < f[i] <= 0.0)
    && FirstRow(x[1] - x[0], y[0], y[1], yp1, f[0], u[0])
    && (forall i :: 1 <= i < k ==> Row(x, y, f, u, i))
  }

  /** Elimination and back-substitution together solve the system. */
  lemma {:induction false} SolverIsCorrect(x: seq<real>, y: seq<real>, yp1: real, ypn: real, f: seq<real>, u: seq<real>, m: seq<real>)
    requires Knots(x, y) && |m| == |x| && |f| >= |x| - 1 && |u| >= |x| - 1
    requires Decomposed(x, y, yp1, f, u, |x| - 1)
    requires forall i :: 0 <= i < |x| - 1 ==> SubEq(f[i], u[i], m[i], m[i + 1])
    requires var n := |x|; LastRow(x[n - 1] - x[n - 2], y[n - 2], y[n - 1], ypn, f[n - 2], u[n - 2], m[n - 1])
    ensures IsSpline(x, y, m, yp1, ypn)
  {
    hide RowEq, FirstRow, LastRow, SubEq, Sig, Rhs, Slope, DerivStart, DerivEnd;
    var n := |x|;
    LeftEnd(x[1] - x[0], y[0], y[1], yp1, f[0], u[0], m[0], m[1]);
    RightEnd(x[n - 1] - x[n - 2], y[n - 2], y[n - 1], ypn, f[n - 2], u[n - 2], m[n - 2], m[n - 1]);
    forall i | 1 <= i < n - 1 ensures Smooth(x, y, m, i) {
      assert Row(x, y, f, u, i);
      Interior(x, y, f, u, m, i);
    }
  }

  lemma {:induction false} LeftEnd(h: real, y0: real, y1: real, yp1: real, f: real, u: real, m0: real, m1: real)
    requires h > 0.0 && FirstRow(h, y0, y1, yp1, f, u) && SubEq(f, u, m0, m1)
    ensures if yp1 > NATURAL then m0 == 0.0 else DerivStart(h, y0, y1, m0, m1) == yp1
  {
    if yp1 <= NATURAL { LeftSolved(h, y0, y1, yp1, m0, m1); }
  }

  lemma {:induction false} RightEnd(h: real, y0: real, y1: real, ypn: real, f: real, u: real, m0: real, m1: real)
    requires h > 0.0 && LastRow(h, y0, y1, ypn, f, u, m1) && SubEq(f, u, m0, m1)
    ensures if ypn > NATURAL then m1 == 0.0 else DerivEnd(h, y0, y1, m0, m1) == ypn
  {
    if ypn <= NATURAL { RightSolved(h, y0, y1, ypn, f, u, m0, m1); }
  }

  lemma {:induction false} Interior(x: seq<real>, y: seq<real>, f: seq<real>, u: seq<real>, m: seq<real>, i: nat)
    requires Knots(x, y) && |m| == |x| && |f| >= |x| - 1 && |u| >= |x| - 1 && 1 <= i < |x| - 1
    requires Row(x, y, f, u, i) && SubEq(f[i - 1], u[i - 1], m[i - 1], m[i]) && SubEq(f[i], u[i], m[i], m[i + 1])
    ensures Smooth(x, y, m, i)
  {
    hide RowEq, SubEq, Slope, DerivStart, DerivEnd;
    var a, b := x[i] - x[i - 1], x[i + 1] - x[i];
    assert a + b == x[i + 1] - x[i - 1];
    InteriorRow(a, b, y[i - 1], y[i], y[i + 1], f[i - 1], f[i], u[i - 1], u[i], m[i - 1], m[i], m[i + 1]);
  }

  lemma {:induction false} InteriorRow(a: real, b: real, y0: real, y1: real, y2: real, f0: real, f1: real, u0: real, u1: real,
                    m0: real, m1: real, m2: real)
    requires a > 0.0 && b > 0.0
    requires RowEq(a / (a + b), 6.0 * (Slope(b, y1, y2) - Slope(a, y0, y1)) / (a + b), f0, f1, u0, u1)
    requires SubEq(f0, u0, m0, m1) && SubEq(f1, u1, m1, m2)
    ensures DerivEnd(a, y0, y1, m0, m1) == DerivStart(b, y1, y2, m1, m2)
  {
    hide DerivStart, DerivEnd, Slope;
    RowSolved(a / (a + b), 6.0 * (Slope(b, y1, y2) - Slope(a, y0, y1)) / (a + b), f0, f1, u0, u1, m0, m1, m2);
    RowIsSmooth(a, b, y0, y1, y2, m0, m1, m2);
  }

  /** `spline`: leaves in `y2` the second derivatives of the interpolating spline at the knots. */
  method ComputeSpline(x: seq<real>, y: seq<real>, yp1: real, ypn: real, y2: array<real>)
    requires Knots(x, y) && y2.Length == |x|
    modifies y2
    ensures IsSpline(x, y, y2[..], yp1, ypn)
  {
    hide RowEq, LastRow, SubEq, Sig, Rhs, IsSpline;
    var n := |x|;
    var u := new real[n - 1];
    if yp1 > NATURAL {
      y2[0], u[0] := 0.0, 0.0;
    } else {
      y2[0] := -0.5;
      u[0] := (3.0 / (x[1] - x[0])) * ((y[1] - y[0]) / (x[1] - x[0]) - yp1);
    }
    assert FirstRow(x[1] - x[0], y[0], y[1], yp1, y2[0], u[0]);
    hide FirstRow, Slope;
    Eliminate(x, y, yp1, y2, u);
    ghost var f := y2[..n - 1];
    assert -1.0 < f[n - 2] <= 0.0;
    y2[n - 1] := LastValue(x[n - 1] - x[n - 2], y[n - 2], y[n - 1], ypn, y2[n - 2], u[n - 2]);
    assert y2[..n - 1] == f;
    BackSubstitute(y2, u);
    assert u[..n - 1] == u[..];
    SolverIsCorrect(x, y, yp1, ypn, f, u[..], y2[..]);
  }

  /** The upper boundary condition, natural or of given slope. */
  method LastValue(h: real, y0: real, y1: real, ypn: real, f: real, u: real) returns (m: real)
    requires h > 0.0 && -1.0 < f <= 0.0
    ensures LastRow(h, y0, y1, ypn, f, u, m)
  {
    var qn, un := 0.0, 0.0;
    if ypn <= NATURAL {
      qn := 0.5;
      un := (3.0 / h) * (ypn - (y1 - y0) / h);
    }
    DivTimes(un - qn * u, qn * f + 1.0);
    m := (un - qn * u) / (qn * f + 1.0);
  }

  /** The back-substitution loop. */
  method BackSubstitute(y2: array<real>, u: array<real>)
    requires y2.Length >= 2 && u.Length == y2.Length - 1 && y2 != u
    modifies y2
    ensures y2[y2.Length - 1] == old(y2[y2.Length - 1])
    ensures forall i :: 0 <= i < y2.Length - 1 ==> SubEq(old(y2[i]), u[i], y2[i], y2[i + 1])
  {
    var k := y2.Length - 2;
    while k >= 0
      invariant -1 <= k <= y2.Length - 2 && y2[y2.Length - 1] == old(y2[y2.Length - 1])
      invariant forall i :: 0 <= i <= k ==> y2[i] == old(y2[i])
      invariant forall i :: k < i < y2.Length - 1 ==> SubEq(old(y2[i]), u[i], y2[i], y2[i + 1])
    {
      y2[k] := y2[k] * y2[k + 1] + u[k];
      k := k - 1;
    }
  }

  /** The decomposition loop. */
  method Eliminate(x: seq<real>, y: seq<real>, yp1: real, y2: array<real>, u: array<real>)
    requires Knots(x, y) && y2.Length == |x| && u.Length == |x| - 1 && y2 != u
    requires -1.0 < y2[0] <= 0.0 && FirstRow(x[1] - x[0], y[0], y[1], yp1, y2[0], u[0])
    modifies y2, u
    ensures Decomposed(x, y, yp1, y2[..|x| - 1], u[..|x| - 1], |x| - 1)
  {
    hide RowEq, FirstRow, Sig, Rhs, Slope;
    var n := |x|;
    for i := 1 to n - 1
      invariant Decomposed(x, y, yp1, y2[..i], u[..i], i)
    {
      ghost var f0, u0 := y2[..i], u[..i];
      assert -1.0 < f0[i - 1] <= 0.0;
      y2[i], u[i] := NextRow(x, y, i, y2[i - 1], u[i - 1]);
      assert y2[..i + 1] == f0 + [y2[i]] && u[..i + 1] == u0 + [u[i]];
      DecomposedSnoc(x, y, yp1, f0, u0, y2[i], u[i]);
    }
  }

  /** One step of the decomposition. */
  method NextRow(x: seq<real>, y: seq<real>, i: nat, f0: real, u0: real) returns (f1: real, u1: real)
    requires Knots(x, y) && 1 <= i < |x| - 1 && -1.0 < f0 <= 0.0
    ensures -1.0 < f1 <= 0.0 && RowEq(Sig(x, i), Rhs(x, y, i), f0, f1, u0, u1)
  {
    SigInRange(x[i] - x[i - 1], x[i + 1] - x[i]);
    var sig := (x[i] - x[i - 1]) / (x[i + 1] - x[i - 1]);
    var p := sig * f0 + 2.0;
    assert (x[i] - x[i - 1]) + (x[i + 1] - x[i]) == x[i + 1] - x[i - 1];
    FactorInRange(sig, f0);
    DivTimes(sig - 1.0, p);
    f1 := (sig - 1.0) / p;
    u1 := (y[i + 1] - y[i]) / (x[i + 1] - x[i]) - (y[i] - y[i - 1]) / (x[i] - x[i - 1]);
    DivTimes(6.0 * u1 / (x[i + 1] - x[i - 1]) - sig * u0, p);
    u1 := (6.0 * u1 / (x[i + 1] - x[i - 1]) - sig * u0) / p;
  }

  lemma {:induction false} DecomposedSnoc(x: seq<real>, y: seq<real>, yp1: real, f: seq<real>, u: seq<real>, f1: real, u1: real)
    requires Knots(x, y) && 1 <= |f| == |u| < |x| - 1 && Decomposed(x, y, yp1, f, u, |f|)
    requires -1.0 < f1 <= 0.0 && RowEq(Sig(x, |f|), Rhs(x, y, |f|), f[|f| - 1], f1, u[|f| - 1], u1)
    ensures Decomposed(x, y, yp1, f + [f1], u + [u1], |f| + 1)
  {
    hide RowEq, FirstRow, Sig, Rhs, Slope;
    var g, v := f + [f1], u + [u1];
    forall i | 1 <= i < |g| ensures Row(x, y, g, v, i) {
      assert g[i - 1] == f[i - 1] && v[i - 1] == u[i - 1];
      if i < |f| { assert Row(x, y, f, u, i) && g[i] == f[i] && v[i] == u[i]; }
    }
  }

  // --------------------------------------------------------------------- uniqueness

  function Abs(r: real): real { if r < 0.0 then -r else r }

  lemma {:induction false} LargestIndex(d: seq<real>) returns (i: nat)
    requires d != []
    ensures i < |d| && forall j :: 0 <= j < |d| ==> Abs(d[j]) <= Abs(d[i])
  {
    i := 0;
    var n := |d| - 1;
    if n > 0 {
      var l := d[..n];
      var k := LargestIndex(l);
      i := if Abs(d[k]) < Abs(d[n]) then n else k;
      forall j | 0 <= j < |d| ensures Abs(d[j]) <= Abs(d[i]) {
        if j < n { assert Abs(l[j]) <= Abs(l[k]); }
      }
    }
  }

  /** A largest difference at an interior knot must be zero. */
  lemma {:induction false} InteriorLargest(a: real, b: real, d0: real, d1: real, d2: real)
    requires a > 0.0 && b > 0.0 && Abs(d0) <= Abs(d1) && Abs(d2) <= Abs(d1)
    requires a * d0 + 2.0 * (a + b) * d1 + b * d2 == 0.0
    ensures d1 == 0.0
    decreases d1 < 0.0
  {
    if d1 < 0.0 {
      assert a * -d0 + 2.0 * (a + b) * -d1 + b * -d2 == -(a * d0 + 2.0 * (a + b) * d1 + b * d2);
      InteriorLargest(a, b, -d0, -d1, -d2);
    } else {
      Scaled(a, d0, d1);
      Scaled(b, d2, d1);
      assert 2.0 * (a + b) * d1 == 2.0 * (a * d1) + 2.0 * (b * d1);
      if d1 > 0.0 {
        Positive(a, d1);
        Positive(b, d1);
      }
    }
  }

  lemma {:induction false} Scaled(a: real, d: real, c: real)
    requires a > 0.0 && -c <= d <= c
    ensures a * -c <= a * d <= a * c
  {
    assert a * (c - d) >= 0.0 && a * (d + c) >= 0.0;
  }

  lemma {:induction false} Positive(a: real, c: real)
    requires a > 0.0 && c > 0.0
    ensures a * c > 0.0
  {
  }

  lemma {:induction false} SmoothDifference(a: real, b: real, y0: real, y1: real, y2: real, m0: real, m1: real, m2: real, k0: real, k1: real, k2: real)
    requires a > 0.0 && b > 0.0
    requires DerivEnd(a, y0, y1, m0, m1) == DerivStart(b, y1, y2, m1, m2)
    requires DerivEnd(a, y0, y1, k0, k1) == DerivStart(b, y1, y2, k1, k2)
    ensures a * (m0 - k0) + 2.0 * (a + b) * (m1 - k1) + b * (m2 - k2) == 0.0
  {
    assert a * (m0 + 2.0 * m1) + b * (2.0 * m1 + m2) == a * (k0 + 2.0 * k1) + b * (2.0 * k1 + k2);
  }

  lemma {:induction false} StartDifference(h: real, y0: real, y1: real, m0: real, m1: real, k0: real, k1: real)
    requires h > 0.0 && DerivStart(h, y0, y1, m0, m1) == DerivStart(h, y0, y1, k0, k1)
    ensures 2.0 * (m0 - k0) + (m1 - k1) == 0.0
  {
    CancelFactor(2.0 * m0 + m1, 2.0 * k0 + k1, h);
  }

  lemma {:induction false} EndDifference(h: real, y0: real, y1: real, m0: real, m1: real, k0: real, k1: real)
    requires h > 0.0 && DerivEnd(h, y0, y1, m0, m1) == DerivEnd(h, y0, y1, k0, k1)
    ensures (m0 - k0) + 2.0 * (m1 - k1) == 0.0
  {
    CancelFactor(m0 + 2.0 * m1, k0 + 2.0 * k1, h);
  }

  lemma {:induction false} InteriorAgrees(a: real, b: real, y0: real, y1: real, y2: real, m0: real, m1: real, m2: real, k0: real, k1: real, k2: real)
    requires a > 0.0 && b > 0.0 && Abs(m0 - k0) <= Abs(m1 - k1) && Abs(m2 - k2) <= Abs(m1 - k1)
    requires DerivEnd(a, y0, y1, m0, m1) == DerivStart(b, y1, y2, m1, m2)
    requires DerivEnd(a, y0, y1, k0, k1) == DerivStart(b, y1, y2, k1, k2)
    ensures m1 == k1
  {
    hide DerivStart, DerivEnd;
    SmoothDifference(a, b, y0, y1, y2, m0, m1, m2, k0, k1, k2);
    InteriorLargest(a, b, m0 - k0, m1 - k1, m2 - k2);
  }

  /** Two solutions agree where they differ most. */
  lemma {:induction false} LargestAgrees(x: seq<real>, y: seq<real>, m: seq<real>, k: seq<real>, yp1: real, ypn: real, i: nat)
    requires Knots(x, y) && IsSpline(x, y, m, yp1, ypn) && IsSpline(x, y, k, yp1, ypn)
    requires i < |x| && forall j :: 0 <= j < |x| ==> Abs(m[j] - k[j]) <= Abs(m[i] - k[i])
    ensures m[i] == k[i]
  {
    hide DerivStart, DerivEnd;
    var n := |x|;
    if i == 0 {
      if yp1 <= NATURAL { StartDifference(x[1] - x[0], y[0], y[1], m[0], m[1], k[0], k[1]); }
      assert Abs(m[1] - k[1]) <= Abs(m[0] - k[0]);
    } else if i == n - 1 {
      if ypn <= NATURAL { EndDifference(x[n - 1] - x[n - 2], y[n - 2], y[n - 1], m[n - 2], m[n - 1], k[n - 2], k[n - 1]); }
      assert Abs(m[n - 2] - k[n - 2]) <= Abs(m[n - 1] - k[n - 1]);
    } else {
      assert Smooth(x, y, m, i) && Smooth(x, y, k, i);
      InteriorAgrees(x[i] - x[i - 1], x[i + 1] - x[i], y[i - 1], y[i], y[i + 1], m[i - 1], m[i], m[i + 1], k[i - 1], k[i], k[i + 1]);
    }
  }

  /** There is only one interpolating spline, so the solver's answer is the spline. */
  lemma {:induction false} SplineIsUnique(x: seq<real>, y: seq<real>, m: seq<real>, k: seq<real>, yp1: real, ypn: real)
    requires Knots(x, y) && IsSpline(x, y, m, yp1, ypn) && IsSpline(x, y, k, yp1, ypn)
    ensures m == k
  {
    hide LeftOk, RightOk, Smooth;
    var n := |x|;
    var d := seq(n, j requires 0 <= j < n => m[j] - k[j]);
    var i := LargestIndex(d);
    assert forall j :: 0 <= j < n ==> d[j] == m[j] - k[j];
    LargestAgrees(x, y, m, k, yp1, ypn, i);
    forall j | 0 <= j < n ensures m[j] == k[j] { assert Abs(d[j]) <= Abs(d[i]); }
  }

  // --------------------------------------------------------------------- evaluation

  /** The cubic that `splint` evaluates between two knots, with `a` and `b` the weights of the ends. */
  function Cubic(h: real, y0: real, y1: real, m0: real, m1: real, a: real, b: real): real {
    a * y0 + b * y1 + ((a * a * a - a) * m0 + (b * b * b - b) * m1) * (h * h) / 6.0
  }

  /** On its interval the cubic is the Taylor polynomial with slope `DerivStart` and second derivative `m0` at the left knot. */
  lemma {:induction false} CubicIsTaylor(h: real, y0: real, y1: real, m0: real, m1: real, e: real)
    requires h != 0.0
    ensures var d := e * h;
      Cubic(h, y0, y1, m0, m1, 1.0 - e, e)
        == y0 + DerivStart(h, y0, y1, m0, m1) * d + m0 / 2.0 * (d * d) + (m1 - m0) / (6.0 * h) * (d * d * d)
  {
    var a := 1.0 - e;
    DivTimes(y1 - y0, h);
    assert a * a * a - a == -2.0 * e + 3.0 * (e * e) - e * e * e;
    assert Slope(h, y0, y1) * (e * h) == e * (Slope(h, y0, y1) * h);
    assert h * (2.0 * m0 + m1) / 6.0 * (e * h) == (2.0 * m0 + m1) * e * (h * h) / 6.0;
    assert m0 / 2.0 * ((e * h) * (e * h)) == 3.0 * m0 * (e * e) * (h * h) / 6.0;
    CubicTerm(h, m1 - m0, e);
  }

  lemma {:induction false} CubicTerm(h: real, g: real, e: real)
    requires h != 0.0
    ensures g / (6.0 * h) * ((e * h) * (e * h) * (e * h)) == g * (e * e * e) * (h * h) / 6.0
  {
    DivTimes(g, 6.0 * h);
    assert (e * h) * (e * h) * (e * h) == (e * e * e) * (h * h) * h;
    var q := g / (6.0 * h);
    assert q * ((e * e * e) * (h * h) * h) == (q * h) * ((e * e * e) * (h * h));
    assert q * h == g / 6.0;
  }

  /** That polynomial has slope `DerivEnd` and second derivative `m1` at the right knot. */
  lemma {:induction false} TaylorAtRightEnd(h: real, y0: real, y1: real, m0: real, m1: real)
    requires h != 0.0
    ensures DerivStart(h, y0, y1, m0, m1) + m0 * h + 3.0 * ((m1 - m0) / (6.0 * h)) * (h * h) == DerivEnd(h, y0, y1, m0, m1)
    ensures m0 + 6.0 * ((m1 - m0) / (6.0 * h)) * h == m1
  {
    DivTimes(m1 - m0, 6.0 * h);
    var q := (m1 - m0) / (6.0 * h);
    assert q * h == (m1 - m0) / 6.0;
    assert 3.0 * q * (h * h) == 3.0 * (q * h) * h;
    assert h * (2.0 * m0 + m1) / 6.0 == (2.0 * m0 * h + m1 * h) / 6.0;
    assert h * (m0 + 2.0 * m1) / 6.0 == (m0 * h + 2.0 * m1 * h) / 6.0;
    assert 3.0 * (q * h) * h == (m1 * h - m0 * h) / 2.0;
  }

  datatype Value = Value(y: real) | BadInput

  /** `splint`: bisect for the interval that brackets `x`, and evaluate the cubic there. */
  method Interpolate(xa: seq<real>, ya: seq<real>, y2a: seq<real>, x: real) returns (klo: nat, r: Value)
    requires |xa| == |ya| == |y2a| && |xa| >= 2
    ensures klo + 1 < |xa|
    ensures r.BadInput? <==> xa[klo] == xa[klo + 1]
    ensures r.Value? ==> var h := xa[klo + 1] - xa[klo];
      r.y == Cubic(h, ya[klo], ya[klo + 1], y2a[klo], y2a[klo + 1], (xa[klo + 1] - x) / h, (x - xa[klo]) / h)
    ensures Increasing(xa) ==> r.Value? && (klo > 0 ==> xa[klo] <= x) && (klo + 2 < |xa| ==> x < xa[klo + 1])
    ensures Increasing(xa) ==> forall i :: 0 <= i < |xa| && x == xa[i] ==> r == Value(ya[i])
  {
    hide Cubic;
    klo := 0;
    var khi := |xa| - 1;
    while khi - klo > 1
      invariant 0 <= klo < khi < |xa|
      invariant klo > 0 ==> xa[klo] <= x
      invariant khi < |xa| - 1 ==> x < xa[khi]
    {
      var k := (khi + klo) / 2;
      if xa[k] > x { khi := k; } else { klo := k; }
    }
    var h := xa[khi] - xa[klo];
    if h == 0.0 {
      return klo, BadInput;
    }
    var y := Evaluate(xa[klo], xa[khi], ya[klo], ya[khi], y2a[klo], y2a[khi], x);
    r := Value(y);
    if Increasing(xa) { OnlyKnots(xa, klo, x); }
  }

  /** The value at `x` of the cubic on [x0, x1]. */
  method Evaluate(x0: real, x1: real, y0: real, y1: real, m0: real, m1: real, x: real) returns (y: real)
    requires x1 - x0 != 0.0
    ensures y == Cubic(x1 - x0, y0, y1, m0, m1, (x1 - x) / (x1 - x0), (x - x0) / (x1 - x0))
    ensures x == x0 ==> y == y0
    ensures x == x1 ==> y == y1
  {
    var h := x1 - x0;
    var a := (x1 - x) / h;
    var b := (x - x0) / h;
    y := a * y0 + b * y1 + ((a * a * a - a) * m0 + (b * b * b - b) * m1) * (h * h) / 6.0;
    assert y == Cubic(h, y0, y1, m0, m1, a, b);
    hide Cubic;
    CubicAtKnots(h, y0, y1, m0, m1);
    if x == x0 {
      assert a == 1.0 && b == 0.0;
    }
    if x == x1 {
      assert a == 0.0 && b == 1.0;
    }
  }

  lemma {:induction false} CubicAtKnots(h: real, y0: real, y1: real, m0: real, m1: real)
    ensures Cubic(h, y0, y1, m0, m1, 1.0, 0.0) == y0
    ensures Cubic(h, y0, y1, m0, m1, 0.0, 1.0) == y1
  {
  }

  lemma {:induction false} OnlyKnots(xa: seq<real>, klo: nat, x: real)
    requires Increasing(xa) && klo + 1 < |xa| && (klo > 0 ==> xa[klo] <= x) && (klo + 2 < |xa| ==> x < xa[klo + 1])
    ensures forall i :: 0 <= i < |xa| && x == xa[i] ==> i == klo || i == klo + 1
  {
  }
}
